/** A component-wise model of the Unix behaviour of Rust's `Path`/`PathBuf`
    as the server uses them: parsing a string into components, `push`
    (and `join`), `pop`, `set_extension` and `starts_with`.

    A path is a root flag and a list of components. Empty components and
    `.` components are not kept, except a `.` at the head of a relative
    path (Rust's `CurDir`), so two paths are equal exactly when Rust's
    component-wise `==` says so. */
module Paths {
  import opened Basics

  datatype Path = Path(absolute: bool, parts: seq<string>)

  const Root: Path := Path(true, [])
  const Empty: Path := Path(false, [])
  const Tilde: Path := Path(false, ["~"])

  /** A string that `Path::new` reads as one normal component. */
  predicate IsSingleComponent(s: string)
  {
    |s| > 0 && '/' !in s && s != "."
  }

  ghost predicate WellFormed(p: Path)
  {
    forall i :: 0 <= i < |p.parts| ==>
      IsSingleComponent(p.parts[i]) || (p.parts[i] == "." && i == 0 && !p.absolute)
  }

  /** Splits on every separator; the result always has one more element than
      there are separators. */
  function SplitOn(s: string, sep: char): (r: seq<string>)
    ensures |r| >= 1
    ensures forall x :: x in r ==> sep !in x
    ensures sep !in s ==> r == [s]
  {
    if s == [] then [""]
    else
      var rest := SplitOn(s[1..], sep);
      if s[0] == sep then [""] + rest
      else
        assert s == [s[0]] + s[1..];
        assert sep !in s ==> sep !in s[1..];
        [[s[0]] + rest[0]] + rest[1..]
  }

  /** Drops the empty and `.` segments. */
  function Normal(segs: seq<string>): (r: seq<string>)
    ensures |r| <= |segs|
    ensures forall x :: x in r ==> x in segs && x != "" && x != "."
  {
    if segs == [] then []
    else if segs[0] == "" || segs[0] == "." then Normal(segs[1..])
    else [segs[0]] + Normal(segs[1..])
  }

  /** `Path::new(s)`, read as components. A string that is one normal
      component is that component (ParseSingle shows this is what the
      general splitting gives too). */
  function Parse(s: string): (p: Path)
    ensures p.absolute <==> |s| > 0 && s[0] == '/'
    ensures WellFormed(p)
  {
    if IsSingleComponent(s) then Path(false, [s]) else Components(s)
  }

  /** Splits at every `/` and keeps the normal components, and a leading
      `.` of a relative path. */
  function Components(s: string): (p: Path)
    ensures p.absolute <==> |s| > 0 && s[0] == '/'
    ensures WellFormed(p)
  {
    var segs := SplitOn(s, '/');
    var absolute := |s| > 0 && s[0] == '/';
    var rest := Normal(segs[1..]);
    assert forall i :: 0 <= i < |rest| ==> rest[i] in rest && rest[i] in segs;
    if !absolute && segs[0] == "." then Path(false, ["."] + rest)
    else
      var all := Normal(segs);
      assert forall i :: 0 <= i < |all| ==> all[i] in all && all[i] in segs;
      Path(absolute, all)
  }

  lemma ParseSingle(s: string)
    requires IsSingleComponent(s)
    ensures Parse(s) == Path(false, [s])
    ensures Components(s) == Parse(s)
  {
    assert SplitOn(s, '/') == [s];
    assert Normal([s]) == [s] + Normal([]);
  }

  /** The components `Path::new(s)` has: the `/`-separated segments with the
      empty ones and `.` dropped, except that a relative path keeps a
      leading `.`. */
  lemma ParseComponents(s: string)
    ensures var segs := SplitOn(s, '/');
      Parse(s).parts == if (|s| == 0 || s[0] != '/') && segs[0] == "." then ["."] + Normal(segs[1..]) else Normal(segs)
  {
    if IsSingleComponent(s) {
      ParseSingle(s);
    }
  }

  /** `PathBuf::push(q)` (and `Path::join`): an absolute `q` replaces the
      path; otherwise `q`'s components follow, and a leading `.` of `q`
      survives only when the path was empty. */
  function Join(p: Path, q: Path): (r: Path)
    ensures q.absolute ==> r == q
    ensures !q.absolute && p == Empty ==> r == q
    ensures !q.absolute && p != Empty ==> r.absolute == p.absolute
    ensures !q.absolute && p != Empty ==> r.parts == p.parts + Normal(q.parts)
  {
    if q.absolute then q
    else if p == Empty then q
    else Path(p.absolute, p.parts + Normal(q.parts))
  }

  /** `PathBuf::pop`: truncates to the parent; a path without components is
      left as it is (`pop` returns false). */
  function Pop(p: Path): (r: Path)
    ensures |p.parts| > 0 ==> r.absolute == p.absolute && r.parts + [p.parts[|p.parts| - 1]] == p.parts
    ensures |p.parts| == 0 ==> r == p
  {
    if |p.parts| == 0 then p else Path(p.absolute, p.parts[..|p.parts| - 1])
  }

  /** Pushing one normal component and popping it again gives the path back. */
  lemma PopAfterPush(p: Path, name: string)
    requires IsSingleComponent(name)
    ensures Pop(Join(p, Parse(name))) == p
  {
    ParseSingle(name);
    assert Normal([name]) == [name] + Normal([]);
    if p != Empty {
      assert (p.parts + [name])[..|p.parts|] == p.parts;
    }
  }

  /** `Path::file_name`: the last component when it is a normal one. */
  function FileName(p: Path): (r: Option<string>)
    ensures r.Some? ==> |p.parts| > 0 && r.value == p.parts[|p.parts| - 1]
    ensures r.None? <==> |p.parts| == 0 || p.parts[|p.parts| - 1] in {".", ".."}
  {
    if |p.parts| == 0 then None
    else
      var last := p.parts[|p.parts| - 1];
      if last == "." || last == ".." then None else Some(last)
  }

  /** The index of the last `.` of `s`, if any. */
  function LastDot(s: string): (r: Option<nat>)
    ensures r.Some? ==> r.value < |s| && s[r.value] == '.' && '.' !in s[r.value + 1..]
    ensures r.None? <==> '.' !in s
  {
    if s == [] then None
    else if s[|s| - 1] == '.' then Some(|s| - 1)
    else
      var r := LastDot(s[..|s| - 1]);
      assert s == s[..|s| - 1] + [s[|s| - 1]];
      if r.Some? then
        assert s[r.value + 1..] == s[..|s| - 1][r.value + 1..] + [s[|s| - 1]];
        r
      else None
  }

  /** `Path::file_stem` of a file name: everything before the last `.`,
      unless that `.` is the first character (a hidden file has no
      extension). */
  function Stem(name: string): (r: string)
    ensures '.' !in name ==> r == name
    ensures r <= name
  {
    match LastDot(name)
    case None => name
    case Some(i) => if i == 0 then name else name[..i]
  }

  /** `PathBuf::set_extension(ext)`: replaces whatever follows the stem of the
      file name by `.ext` (nothing when `ext` is empty); a path without a
      file name is left unchanged. */
  function SetExtension(p: Path, ext: string): (r: Path)
    ensures FileName(p).None? ==> r == p
    ensures FileName(p).Some? ==>
      r.absolute == p.absolute && |r.parts| == |p.parts| &&
      r.parts[..|p.parts| - 1] == p.parts[..|p.parts| - 1] &&
      r.parts[|p.parts| - 1] == Stem(FileName(p).value) + (if ext == "" then "" else "." + ext)
  {
    match FileName(p)
    case None => p
    case Some(name) =>
      var n := |p.parts|;
      Path(p.absolute, p.parts[..n - 1] + [Stem(name) + (if ext == "" then "" else "." + ext)])
  }

  /** `Path::starts_with(base)` for a base that is absolute or has at least
      one component (the model only tests `~`): the base's components,
      root included, are the first components of `p`. For the empty base
      Rust answers true for every path, which this predicate does not
      model. */
  predicate StartsWith(p: Path, base: Path)
    ensures StartsWith(p, base) <==>
      p.absolute == base.absolute && |base.parts| <= |p.parts| &&
      forall i :: 0 <= i < |base.parts| ==> p.parts[i] == base.parts[i]
  {
    p.absolute == base.absolute && base.parts <= p.parts
  }

  /** `Path::strip_prefix(base)`, defined where `StartsWith(p, base)`. */
  function StripPrefix(p: Path, base: Path): (r: Path)
    requires StartsWith(p, base)
    ensures !r.absolute && base.parts + r.parts == p.parts
  {
    var r := Path(false, p.parts[|base.parts|..]);
    assert base.parts + r.parts == p.parts;
    r
  }

  /** `p.starts_with("~")` is a test on the first component: a path whose
      first component merely begins with `~` (`~foo`) does not start with `~`. */
  lemma StartsWithTildeIsComponentwise(p: Path)
    ensures StartsWith(p, Tilde) <==> !p.absolute && |p.parts| > 0 && p.parts[0] == "~"
  {
    if !p.absolute && |p.parts| > 0 && p.parts[0] == "~" {
      assert Tilde.parts == p.parts[..1];
    }
  }

  lemma SplitTildeFoo()
    ensures SplitOn("~/foo", '/') == ["~", "foo"]
  {
    var s := "~/foo";
    assert s[0] == '~' && s[1..] == "/foo";
    assert "/foo"[0] == '/' && "/foo"[1..] == "foo";
    assert '/' !in "foo";
    assert SplitOn("/foo", '/') == [""] + ["foo"];
    assert [s[0]] + "" == "~";
  }

  /** `~/foo` has the two components `~` and `foo`. */
  lemma ParseTildeFoo()
    ensures Parse("~/foo") == Path(false, ["~", "foo"])
  {
    assert "~/foo"[1] == '/';
    SplitTildeFoo();
    assert Normal(["~", "foo"]) == ["~"] + Normal(["foo"]);
    assert Normal(["foo"]) == ["foo"] + Normal([]);
  }

  lemma TildeFooIsNotTilde()
    ensures !StartsWith(Parse("~foo"), Tilde)
  {
    assert SplitOn("~foo", '/') == ["~foo"];
    assert Normal(["~foo"]) == ["~foo"] + Normal([]);
    StartsWithTildeIsComponentwise(Parse("~foo"));
  }
}
