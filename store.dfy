/** The on-disk layout of the paste store, shared by the axum handlers
    (src/handlers.rs) and the Rocket server (src/main.rs): where the paste
    with a given key lives, and the collision-retry loop that picks the name
    of a new paste. `lower` is the library's Unicode `to_lowercase`, a
    parameter; `files` is the set of paths that `is_file()` reports as
    regular files. */
module Store {
  import opened Basics
  import opened Paths

  const Extension: string := "zst"

  /** The path the naming loop tests for a candidate: `output` with the
      lower-cased name pushed. For a name that is one component it is
      `output/name`, one component longer than `output`. */
  function Checked(output: Path, name: string, lower: string -> string): (r: Path)
    ensures IsSingleComponent(lower(name)) ==>
              r == Path(output != Empty && output.absolute, output.parts + [lower(name)])
  {
    if IsSingleComponent(lower(name)) then
      ParseSingle(lower(name));
      JoinComponent(output, lower(name));
      Join(output, Parse(lower(name)))
    else Join(output, Parse(lower(name)))
  }

  /** `output.join(lower(key))` with `set_extension("zst")`: where the paste
      named `key` is stored and looked up. For a plain name it is
      `output/name.zst`. */
  function PasteFile(output: Path, key: string, lower: string -> string): (r: Path)
    ensures IsPlainName(lower(key)) ==>
              r == Path(output != Empty && output.absolute, output.parts + [lower(key) + "." + Extension])
  {
    if IsPlainName(lower(key)) then
      PlainPasteFile(output, lower(key));
      SetExtension(Join(output, Parse(lower(key))), Extension)
    else SetExtension(Join(output, Parse(lower(key))), Extension)
  }

  lemma PlainPasteFile(output: Path, l: string)
    requires IsPlainName(l)
    ensures SetExtension(Join(output, Parse(l)), Extension) ==
            Path(output != Empty && output.absolute, output.parts + [l + "." + Extension])
  {
    var f := l + "." + Extension;
    ParseSingle(l);
    AppendExtension(l);
    JoinComponent(output, l);
    var c := Path(output != Empty && output.absolute, output.parts + [l]);
    assert FileName(c) == Some(l);
    assert c.parts[..|c.parts| - 1] == output.parts;
    assert Stem(l) + ("." + Extension) == f;
    var e := SetExtension(c, Extension);
    assert e.parts == e.parts[..|c.parts| - 1] + [f];
  }

  /** What the filesystem and the decompressor answer about paths: `regular`
      are the paths for which `is_file()` holds, `openable` those that
      `File::open` opens, and `decoded` gives the decompressed bytes of a file
      whose zstd stream decodes (absent when decoding fails). */
  datatype Disk = Disk(regular: set<Path>, openable: set<Path>, decoded: map<Path, seq<byte>>)

  /** A name that lower-cases to one plain component without a `.`. */
  predicate IsPlainName(l: string)
  {
    IsSingleComponent(l) && '.' !in l && l != ".."
  }

  lemma JoinComponent(p: Path, f: string)
    requires IsSingleComponent(f)
    ensures Join(p, Path(false, [f])) == Path(p != Empty && p.absolute, p.parts + [f])
  {
    assert Normal([f]) == [f] + Normal([]);
  }

  lemma AppendExtension(l: string)
    requires IsPlainName(l)
    ensures IsSingleComponent(l + "." + Extension)
    ensures Stem(l) == l
  {
    var f := l + "." + Extension;
    assert |f| == |l| + 4;
    assert forall i :: 0 <= i < |f| ==> f[i] != '/' by {
      forall i | 0 <= i < |f| ensures f[i] != '/' {
        if i < |l| { assert f[i] == l[i]; }
      }
    }
  }

  /** For a plain name the paste file is the checked path with `.zst`
      appended to its last component: the two share the directory `output`
      and differ by the extension alone. */
  lemma PasteFileOfPlainName(output: Path, key: string, lower: string -> string)
    requires IsPlainName(lower(key))
    ensures PasteFile(output, key, lower) == Join(output, Path(false, [lower(key) + "." + Extension]))
    ensures Checked(output, key, lower) == Join(output, Path(false, [lower(key)]))
    ensures Pop(PasteFile(output, key, lower)) == output && Pop(Checked(output, key, lower)) == output
    ensures PasteFile(output, key, lower) != Checked(output, key, lower)
  {
    var l := lower(key);
    var f := l + "." + Extension;
    AppendExtension(l);
    JoinComponent(output, f);
    PopAfterPush(output, l);
    PopAfterPush(output, f);
    ParseSingle(l);
    ParseSingle(f);
    assert f != l by { assert |f| == |l| + 4; }
    assert (output.parts + [f])[|output.parts|] == f;
  }

  /** Lookups lower-case the key with `to_ascii_lowercase`, so they ignore the
      case in which an ASCII key is typed. */
  lemma LookupIgnoresAsciiCase(output: Path, key: string)
    ensures PasteFile(output, AsciiUpper(key), AsciiLower) == PasteFile(output, key, AsciiLower)
  {
    AsciiLowerOfUpper(key);
  }

  /** On an ASCII key, Unicode and ASCII lower-casing name the same file. */
  lemma LowercasingsAgreeOnAscii(output: Path, key: string, lower: string -> string)
    requires AgreesOnAscii(lower) && IsAscii(key)
    ensures PasteFile(output, key, lower) == PasteFile(output, key, AsciiLower)
    ensures Checked(output, key, lower) == Checked(output, key, AsciiLower)
  {
    assert lower(key) == AsciiLower(key);
  }

  /** The naming loop of `upload` as written: for each candidate, push its
      lower-cased form onto `file_path`; stop at the first one that is not a
      regular file, otherwise pop it again and retry. `candidates` are the
      successive results of `gen_name`; `found` is the index of the chosen
      one, or None when every candidate collided (the source then keeps
      drawing). Returns the chosen index and `file_path` after
      `set_extension("zst")`. */
  method NameLoop(output: Path, candidates: seq<string>, lower: string -> string, files: set<Path>)
    returns (found: Option<nat>, filePath: Path)
    requires forall j :: 0 <= j < |candidates| ==> IsSingleComponent(lower(candidates[j]))
    ensures found.Some? ==> found.value < |candidates|
    ensures found.Some? ==> Checked(output, candidates[found.value], lower) !in files
    ensures found.Some? ==> forall j :: 0 <= j < found.value ==> Checked(output, candidates[j], lower) in files
    ensures found.Some? ==> filePath == PasteFile(output, candidates[found.value], lower)
    ensures found.None? ==> forall j :: 0 <= j < |candidates| ==> Checked(output, candidates[j], lower) in files
    ensures found.None? ==> filePath == output
  {
    filePath := output;
    var i := 0;
    while i < |candidates|
      invariant 0 <= i <= |candidates|
      invariant filePath == output
      invariant forall j :: 0 <= j < i ==> Checked(output, candidates[j], lower) in files
    {
      var name := candidates[i];
      filePath := Join(filePath, Parse(lower(name)));
      assert filePath == Checked(output, candidates[i], lower);
      if filePath !in files {
        filePath := SetExtension(filePath, Extension);
        return Some(i), filePath;
      }
      PopAfterPush(output, lower(name));
      filePath := Pop(filePath);
      i := i + 1;
    }
    found := None;
  }

  /** The loop tests the path WITHOUT `.zst`, so it never sees an existing
      paste: with the paste `abc` stored, the candidate `abc` passes the test
      (the loop must choose it) and its `.zst` file, the one `upload` then
      creates and truncates, already exists. */
  lemma NameLoopMissesExistingPaste(output: Path, lower: string -> string)
    requires lower("abc") == "abc"
    ensures var files := {PasteFile(output, "abc", lower)};
      Checked(output, "abc", lower) !in files && PasteFile(output, "abc", lower) in files
  {
    AbcIsPlain();
    CheckMissesPaste(output, "abc", lower);
  }

  /** For every key whose lower-cased form is a plain name, the checked path
      is not the paste's file. */
  lemma CheckMissesPaste(output: Path, key: string, lower: string -> string)
    requires IsPlainName(lower(key))
    ensures var files := {PasteFile(output, key, lower)};
      Checked(output, key, lower) !in files && PasteFile(output, key, lower) in files
  {
    PasteFileOfPlainName(output, key, lower);
  }

  lemma AbcIsPlain()
    ensures IsPlainName("abc")
  {
    assert "abc"[0] == 'a' && "abc"[1] == 'b' && "abc"[2] == 'c';
  }

  /** The naming loop as evidently intended: the test is on the path that
      will be created, `output/lower(name).zst`. */
  method NameLoopFixed(output: Path, candidates: seq<string>, lower: string -> string, files: set<Path>)
    returns (found: Option<nat>, filePath: Path)
    requires forall j :: 0 <= j < |candidates| ==> IsSingleComponent(lower(candidates[j]))
    ensures found.Some? ==> found.value < |candidates|
    ensures found.Some? ==> PasteFile(output, candidates[found.value], lower) !in files
    ensures found.Some? ==> forall j :: 0 <= j < found.value ==> PasteFile(output, candidates[j], lower) in files
    ensures found.Some? ==> filePath == PasteFile(output, candidates[found.value], lower)
    ensures found.None? ==> forall j :: 0 <= j < |candidates| ==> PasteFile(output, candidates[j], lower) in files
    ensures found.None? ==> filePath == output
  {
    filePath := output;
    var i := 0;
    while i < |candidates|
      invariant 0 <= i <= |candidates|
      invariant filePath == output
      invariant forall j :: 0 <= j < i ==> PasteFile(output, candidates[j], lower) in files
    {
      var name := candidates[i];
      filePath := Join(filePath, Parse(lower(name)));
      assert SetExtension(filePath, Extension) == PasteFile(output, candidates[i], lower);
      if SetExtension(filePath, Extension) !in files {
        filePath := SetExtension(filePath, Extension);
        return Some(i), filePath;
      }
      PopAfterPush(output, lower(name));
      filePath := Pop(filePath);
      i := i + 1;
    }
    found := None;
  }
}
