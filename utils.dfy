/** src/utils.rs: paste names, paste URLs, tilde expansion of the store
    directory, and one pass of the retention sweeper. The random word choice,
    the home directory, the clock and the filesystem are parameters. */
module Utils {
  import opened Basics
  import opened Paths

  // ---------------------------------------------------------------------------
  // Names and URLs

  /** A word of the bundled word lists: lower-case ASCII letters. */
  predicate IsWord(w: string)
  {
    |w| > 0 && forall i :: 0 <= i < |w| ==> 'a' <= w[i] <= 'z'
  }

  /** `name` is two adjectives followed by a noun. */
  ghost predicate IsName(name: string, adjectives: seq<string>, nouns: seq<string>)
  {
    exists a1, a2, n :: a1 in adjectives && a2 in adjectives && n in nouns && name == a1 + a2 + n
  }

  /** `gen_name`: the random choices are the indices `i`, `j` (adjectives) and
      `k` (noun); `choose(..).unwrap()` needs non-empty lists, which the
      index bounds express. */
  function GenName(adjectives: seq<string>, nouns: seq<string>, i: nat, j: nat, k: nat): (name: string)
    requires i < |adjectives| && j < |adjectives| && k < |nouns|
    ensures IsName(name, adjectives, nouns)
    ensures |name| == |adjectives[i]| + |adjectives[j]| + |nouns[k]|
    ensures name[..|adjectives[i]|] == adjectives[i]
    ensures name[|name| - |nouns[k]|..] == nouns[k]
  {
    var name := adjectives[i] + adjectives[j] + nouns[k];
    assert name == adjectives[i] + adjectives[j] + nouns[k];
    name
  }

  /** Over word lists of lower-case ASCII words, every name is one plain
      path component without a `.`, already lower case, so pushing it onto
      the store directory adds exactly one component and `set_extension`
      appends `.zst` to it. */
  lemma {:induction false} NameIsPlainComponent(name: string, adjectives: seq<string>, nouns: seq<string>)
    requires forall w :: w in adjectives ==> IsWord(w)
    requires forall w :: w in nouns ==> IsWord(w)
    requires IsName(name, adjectives, nouns)
    ensures IsWord(name)
    ensures IsSingleComponent(name) && '.' !in name && name != ".."
    ensures IsAscii(name) && AsciiLower(name) == name
  {
    var a1, a2, n :| a1 in adjectives && a2 in adjectives && n in nouns && name == a1 + a2 + n;
    assert IsWord(a1) && IsWord(a2) && IsWord(n);
    forall i | 0 <= i < |name| ensures 'a' <= name[i] <= 'z' {
      if i < |a1| {
        assert name[i] == a1[i];
      } else if i < |a1| + |a2| {
        assert name[i] == a2[i - |a1|];
      } else {
        assert name[i] == n[i - |a1| - |a2|];
      }
    }
    assert forall i :: 0 <= i < |name| ==> name[i] != '/' && name[i] != '.';
    assert name[0] != '.';
    var lowered := AsciiLower(name);
    assert forall i :: 0 <= i < |name| ==> lowered[i] == name[i];
  }

  function Scheme(https: bool): (s: string)
    ensures |s| == (if https then 8 else 7)
  {
    if https then "https://" else "http://"
  }

  /** The domain without the one trailing `/` it may carry. */
  function TrimSlash(domain: string): (d: string)
    ensures d + (if |domain| > 0 && domain[|domain| - 1] == '/' then "/" else "") == domain
  {
    if |domain| > 0 && domain[|domain| - 1] == '/' then domain[..|domain| - 1] else domain
  }

  /** `gen_url`: a scheme, the domain, a `/` only when the domain lacks a
      trailing one, and the name. Whatever the domain, exactly one `/` of
      the builder's separates the domain (less its own trailing `/`) from the
      name. */
  function GenUrl(domain: string, name: string, https: bool): (url: string)
    ensures https ==> |url| >= 8 && url[..8] == "https://"
    ensures !https ==> |url| >= 7 && url[..7] == "http://"
    ensures url == Scheme(https) + TrimSlash(domain) + "/" + name
    ensures url[|url| - |name|..] == name
  {
    var url := Scheme(https) + domain;
    var url := if |domain| > 0 && domain[|domain| - 1] == '/' then url else url + "/";
    var url := url + name;
    assert url == Scheme(https) + TrimSlash(domain) + "/" + name;
    url
  }

  // ---------------------------------------------------------------------------
  // Tilde expansion

  /** `expand_tilde` as written: a path whose first component is not `~` is
      returned as it is; `~` itself becomes the home directory; otherwise the
      home directory is joined with what follows `~`, except that for the home
      directory `/` the tilde is only stripped. `home` is `home_dir()`. */
  function ExpandTilde(p: Path, home: Option<Path>): (r: Option<Path>)
    ensures !StartsWith(p, Tilde) ==> r == Some(p)
    ensures StartsWith(p, Tilde) && home.None? ==> r.None?
    ensures p == Tilde ==> r == home
    ensures StartsWith(p, Tilde) && p != Tilde && home == Some(Root) ==>
      r == Some(Path(false, p.parts[1..]))
    ensures StartsWith(p, Tilde) && p != Tilde && home.Some? && home.value != Root ==>
      r == Some(Join(home.value, Path(false, p.parts[1..])))
  {
    if !StartsWith(p, Tilde) then Some(p)
    else if p == Tilde then home
    else match home
      case None => None
      case Some(h) =>
        if h == Root then Some(StripPrefix(p, Tilde))
        else Some(Join(h, StripPrefix(p, Tilde)))
  }

  /** With the home directory `/`, `~/foo` expands to the RELATIVE path
      `foo`: the special case meant to avoid a doubled `/` drops the root. */
  lemma ExpandTildeRootHomeIsRelative()
    ensures ExpandTilde(Parse("~/foo"), Some(Root)) == Some(Path(false, ["foo"]))
    ensures !ExpandTilde(Parse("~/foo"), Some(Root)).value.absolute
  {
    ParseTildeFoo();
    StartsWithTildeIsComponentwise(Parse("~/foo"));
  }

  /** `expand_tilde` as evidently intended: the remainder after `~` is always
      joined onto the home directory, `/` included. */
  function ExpandTildeFixed(p: Path, home: Option<Path>): (r: Option<Path>)
    ensures !StartsWith(p, Tilde) ==> r == Some(p)
    ensures StartsWith(p, Tilde) ==> (r.None? <==> home.None?)
    ensures p == Tilde ==> r == home
  {
    if !StartsWith(p, Tilde) then Some(p)
    else if p == Tilde then home
    else match home
      case None => None
      case Some(h) => Some(Join(h, StripPrefix(p, Tilde)))
  }

  /** The intended property: `~/rest` lands under the home directory, so an
      absolute home directory (`/` included) always gives an absolute path
      made of the home's components followed by `rest`. */
  lemma ExpandTildeFixedUnderHome(p: Path, h: Path)
    requires WellFormed(p) && StartsWith(p, Tilde)
    requires h.absolute
    ensures ExpandTildeFixed(p, Some(h)).Some?
    ensures ExpandTildeFixed(p, Some(h)).value.absolute
    ensures p != Tilde ==> ExpandTildeFixed(p, Some(h)).value.parts == h.parts + p.parts[1..]
  {
    StartsWithTildeIsComponentwise(p);
    if p != Tilde {
      var rest := p.parts[1..];
      assert forall i :: 0 <= i < |rest| ==> IsSingleComponent(rest[i]) by {
        forall i | 0 <= i < |rest| ensures IsSingleComponent(rest[i]) {
          assert rest[i] == p.parts[i + 1];
        }
      }
      NormalKeepsComponents(rest);
    }
  }

  lemma {:induction false} NormalKeepsComponents(s: seq<string>)
    requires forall i :: 0 <= i < |s| ==> IsSingleComponent(s[i])
    ensures Normal(s) == s
  {
    if s != [] {
      NormalKeepsComponents(s[1..]);
      assert s == [s[0]] + s[1..];
    }
  }

  /** With an absolute home directory, expanding an already expanded path
      changes nothing more. (As written this fails for the home `/`:
      `~/~/x` expands to `~/x`, which expands again.) */
  lemma ExpandTildeFixedIdempotent(p: Path, h: Path)
    requires WellFormed(p)
    requires h.absolute
    ensures ExpandTildeFixed(p, Some(h)).Some?
    ensures ExpandTildeFixed(ExpandTildeFixed(p, Some(h)).value, Some(h)) == ExpandTildeFixed(p, Some(h))
  {
    if StartsWith(p, Tilde) {
      ExpandTildeFixedUnderHome(p, h);
    }
  }

  // ---------------------------------------------------------------------------
  // Retention sweeper

  const SecsInDay: nat := 86400
  const NanosPerSec: nat := 1_000_000_000

  /** The sleep between two passes of `clean_files_task`: two days. */
  const SweepPeriodSecs: nat := 2 * SecsInDay

  lemma SweepPeriodIsTwoDays()
    ensures SweepPeriodSecs == 172800 && SweepPeriodSecs / SecsInDay == 2
  {
  }

  /** Directory entry metadata: `is_file()` and `created()` (absent when the
      platform cannot report it). Times are nanoseconds on one clock. */
  datatype Meta = Meta(isFile: bool, created: Option<int>)

  /** A directory entry; `meta` is absent when `metadata()` fails. */
  datatype Entry = Entry(path: Path, meta: Option<Meta>)

  /** `delete_after as u64 * SECS_IN_DAY`: the product of a `u32` and 86400
      always fits a `u64`. */
  function KeepForSecs(deleteAfter: u32): (secs: u64)
    ensures secs as int == deleteAfter as int * SecsInDay
    ensures secs == 0 <==> deleteAfter == 0
  {
    (deleteAfter as int * 86400) as u64
  }

  function KeepForNanos(deleteAfter: u32): nat
  {
    KeepForSecs(deleteAfter) as int * NanosPerSec
  }

  predicate IsRegular(e: Entry)
  {
    e.meta.Some? && e.meta.value.isFile
  }

  /** A regular file whose creation time cannot be read: the pass stops here. */
  predicate StopsPass(e: Entry)
  {
    IsRegular(e) && e.meta.value.created.None?
  }

  /** A regular file whose creation time plus the retention period is not
      after `now`: due for removal (an age exactly equal to it included). */
  predicate Expired(e: Entry, keep: int, now: int)
  {
    IsRegular(e) && e.meta.value.created.Some? && e.meta.value.created.value + keep <= now
  }

  datatype SweepResult = SweepResult(remaining: seq<Entry>, deleted: nat)

  /** The effect of the pass on `dir[k..]`, entry by entry, as the loop of
      `clean_files` goes: unreadable metadata and non-files are skipped, a
      file without a creation time ends the pass, an expired file is removed
      when `removeOk` says its `remove_file` succeeds. */
  function Sweep(dir: seq<Entry>, keep: int, now: int, removeOk: seq<bool>, k: nat): (r: SweepResult)
    requires |removeOk| == |dir| && k <= |dir|
    decreases |dir| - k
  {
    if k == |dir| then SweepResult([], 0)
    else
      var e := dir[k];
      if !IsRegular(e) then
        var rest := Sweep(dir, keep, now, removeOk, k + 1);
        SweepResult([e] + rest.remaining, rest.deleted)
      else if StopsPass(e) then SweepResult(dir[k..], 0)
      else
        var rest := Sweep(dir, keep, now, removeOk, k + 1);
        if Expired(e, keep, now) && removeOk[k] then SweepResult(rest.remaining, rest.deleted + 1)
        else SweepResult([e] + rest.remaining, rest.deleted)
  }

  /** `clean_files`: one pass over the store directory `dir` at time `now`.
      `removeOk[i]` is whether `remove_file` succeeds for `dir[i]`. Returns
      the entries that remain and the number of successful removals. */
  method CleanFiles(dir: seq<Entry>, deleteAfter: u32, now: int, removeOk: seq<bool>)
    returns (remaining: seq<Entry>, counter: nat)
    requires |removeOk| == |dir|
    ensures SweepResult(remaining, counter) == Sweep(dir, KeepForNanos(deleteAfter), now, removeOk, 0)
  {
    var keepFor := KeepForNanos(deleteAfter);
    ghost var total := Sweep(dir, keepFor, now, removeOk, 0);
    remaining, counter := [], 0;
    var i := 0;
    while i < |dir|
      invariant 0 <= i <= |dir|
      invariant total.remaining == remaining + Sweep(dir, keepFor, now, removeOk, i).remaining
      invariant total.deleted == counter + Sweep(dir, keepFor, now, removeOk, i).deleted
    {
      var file := dir[i];
      ghost var here := Sweep(dir, keepFor, now, removeOk, i);
      ghost var next := if StopsPass(file) then here else Sweep(dir, keepFor, now, removeOk, i + 1);
      ghost var kept := SweepResult([file] + next.remaining, next.deleted);
      if file.meta.None? {
        assert here == kept;
        assert (remaining + [file]) + next.remaining == remaining + kept.remaining;
        remaining := remaining + [file];
        i := i + 1;
        continue;
      }
      var meta := file.meta.value;
      if !meta.isFile {
        assert here == kept;
        assert (remaining + [file]) + next.remaining == remaining + kept.remaining;
        remaining := remaining + [file];
        i := i + 1;
        continue;
      }
      if meta.created.None? {
        assert here == SweepResult(dir[i..], 0);
        assert Sweep(dir, keepFor, now, removeOk, |dir|) == SweepResult([], 0);
        assert remaining + dir[i..] + [] == remaining + dir[i..];
        remaining := remaining + dir[i..];
        i := |dir|;
        break;
      }
      var created := meta.created.value;
      if created + keepFor <= now {
        if !removeOk[i] {
          assert here == kept;
          assert (remaining + [file]) + next.remaining == remaining + kept.remaining;
          remaining := remaining + [file];
        } else {
          assert here == SweepResult(next.remaining, next.deleted + 1);
          counter := counter + 1;
        }
      } else {
        assert here == kept;
        assert (remaining + [file]) + next.remaining == remaining + kept.remaining;
        remaining := remaining + [file];
      }
      i := i + 1;
    }
  }

  /** The first index at or after `k` where the pass stops, or `|dir|`. */
  function StopIndex(dir: seq<Entry>, k: nat): (s: nat)
    requires k <= |dir|
    ensures k <= s <= |dir|
    ensures forall i :: k <= i < s ==> !StopsPass(dir[i])
    ensures s < |dir| ==> StopsPass(dir[s])
    decreases |dir| - k
  {
    if k == |dir| then k
    else if StopsPass(dir[k]) then k
    else StopIndex(dir, k + 1)
  }

  /** The entries of `dir[k..s]` that are not removed. */
  function Survivors(dir: seq<Entry>, keep: int, now: int, removeOk: seq<bool>, k: nat, s: nat): seq<Entry>
    requires |removeOk| == |dir| && k <= s <= |dir|
    decreases s - k
  {
    if k == s then []
    else if Expired(dir[k], keep, now) && removeOk[k] then Survivors(dir, keep, now, removeOk, k + 1, s)
    else [dir[k]] + Survivors(dir, keep, now, removeOk, k + 1, s)
  }

  /** How many entries of `dir[k..s]` are removed. */
  function Removed(dir: seq<Entry>, keep: int, now: int, removeOk: seq<bool>, k: nat, s: nat): nat
    requires |removeOk| == |dir| && k <= s <= |dir|
    decreases s - k
  {
    if k == s then 0
    else
      var here := if Expired(dir[k], keep, now) && removeOk[k] then 1 else 0;
      here + Removed(dir, keep, now, removeOk, k + 1, s)
  }

  /** The pass, stated as a filter: up to the first file without a creation
      time, exactly the expired files whose removal succeeds disappear and
      are counted (skipped entries, young files and failed removals stay);
      from that file on, the directory is left as it is. */
  lemma {:induction false} SweepIsFilterUpToStop(dir: seq<Entry>, keep: int, now: int, removeOk: seq<bool>, k: nat)
    requires |removeOk| == |dir| && k <= |dir|
    ensures var s := StopIndex(dir, k);
      Sweep(dir, keep, now, removeOk, k) ==
      SweepResult(Survivors(dir, keep, now, removeOk, k, s) + dir[s..], Removed(dir, keep, now, removeOk, k, s))
    decreases |dir| - k
  {
    if k < |dir| && !StopsPass(dir[k]) {
      SweepIsFilterUpToStop(dir, keep, now, removeOk, k + 1);
    }
  }

  /** Every entry either remains or is counted. */
  lemma {:induction false} SweepCountsRemovals(dir: seq<Entry>, keep: int, now: int, removeOk: seq<bool>, k: nat)
    requires |removeOk| == |dir| && k <= |dir|
    ensures |Sweep(dir, keep, now, removeOk, k).remaining| + Sweep(dir, keep, now, removeOk, k).deleted == |dir| - k
    decreases |dir| - k
  {
    if k < |dir| && !StopsPass(dir[k]) {
      SweepCountsRemovals(dir, keep, now, removeOk, k + 1);
    }
  }

  /** The retention boundary: a file exactly `delete_after` days old is removed,
      one a nanosecond younger is kept. */
  lemma TtlBoundary(p: Path, deleteAfter: u32, now: int)
    ensures var keep := KeepForNanos(deleteAfter);
      var aged := Entry(p, Some(Meta(true, Some(now - keep))));
      var young := Entry(p, Some(Meta(true, Some(now - keep + 1))));
      Sweep([aged], keep, now, [true], 0) == SweepResult([], 1) &&
      Sweep([young], keep, now, [true], 0) == SweepResult([young], 0)
  {
  }

  /** Why the sweeper is never started for `delete_after == 0`: a pass with a
      zero retention period removes every file created up to `now`. */
  lemma {:induction false} ZeroTtlRemovesEveryFile(dir: seq<Entry>, now: int, removeOk: seq<bool>, k: nat)
    requires |removeOk| == |dir| && k <= |dir|
    requires forall i :: k <= i < |dir| ==>
      (IsRegular(dir[i]) && dir[i].meta.value.created.Some? && dir[i].meta.value.created.value <= now && removeOk[i])
    ensures Sweep(dir, KeepForNanos(0), now, removeOk, k) == SweepResult([], |dir| - k)
    decreases |dir| - k
  {
    if k < |dir| {
      ZeroTtlRemovesEveryFile(dir, now, removeOk, k + 1);
    }
  }
}
