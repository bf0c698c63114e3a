/** src/main.rs: the Rocket server. Its settings come from the command line;
    `main` expands the store directory, rewrites a bare `localhost` domain,
    prepares the directory and starts the retention sweeper; the routes
    store a paste (compressing it in one library call) and serve one. */
module RocketServer {
  import opened Basics
  import opened Paths
  import opened Store
  import Utils

  /** The command-line settings `main` reads. */
  datatype Opt = Opt(output: Path, domain: string, https: bool, port: u16, deleteAfter: u32)

  /** Why `main` stops before launching: `expand_tilde` found no home
      directory (the `unwrap` panics), `create_dir_all` failed, or the probe
      file could not be created in the store directory. */
  datatype StartupError = NoHomeDir | CreateDirFailed | NotWritable

  /** The settings the routes are given and whether the sweeper was started. */
  datatype Launch = Launch(settings: Opt, sweeper: bool)

  /** `main` up to the launch of the server. `home` is `home_dir()`,
      `createDirOk` whether `create_dir_all` succeeds and `writable` whether
      `dir_is_writable` does. */
  method Startup(opt: Opt, home: Option<Path>, createDirOk: bool, writable: bool)
    returns (r: Result<Launch, StartupError>)
    ensures Utils.ExpandTilde(opt.output, home).None? <==> r == Failure(NoHomeDir)
    ensures Utils.ExpandTilde(opt.output, home).Some? && !createDirOk ==> r == Failure(CreateDirFailed)
    ensures Utils.ExpandTilde(opt.output, home).Some? && createDirOk && !writable ==> r == Failure(NotWritable)
    ensures r.Success? <==> Utils.ExpandTilde(opt.output, home).Some? && createDirOk && writable
    ensures r.Success? ==> r.value.settings.output == Utils.ExpandTilde(opt.output, home).value
    ensures r.Success? ==>
              r.value.settings.domain ==
              (if opt.domain == "localhost" then "localhost:" + Decimal(opt.port as nat) else opt.domain)
    ensures r.Success? ==> r.value.settings.https == opt.https && r.value.settings.port == opt.port
    ensures r.Success? ==> r.value.settings.deleteAfter == opt.deleteAfter
    ensures r.Success? ==> (r.value.sweeper <==> opt.deleteAfter != 0)
  {
    var opt := opt;
    var expanded := Utils.ExpandTilde(opt.output, home);
    if expanded.None? {
      return Failure(NoHomeDir);
    }
    opt := opt.(output := expanded.value);
    if opt.domain == "localhost" {
      opt := opt.(domain := "localhost:" + Decimal(opt.port as nat));
    }
    if !createDirOk {
      return Failure(CreateDirFailed);
    }
    if !writable {
      return Failure(NotWritable);
    }
    var sweeper := false;
    if opt.deleteAfter != 0 {
      sweeper := true;
    }
    r := Success(Launch(opt, sweeper));
  }

  /** The rewritten domain is never `localhost` again, so the rewrite happens
      at most once, and with the port 8000 it reads `localhost:8000`. */
  lemma LocalhostRewrite(port: u16)
    ensures "localhost:" + Decimal(port as nat) != "localhost"
    ensures Decimal(8000) == "8000"
  {
    assert |"localhost:" + Decimal(port as nat)| > |"localhost"|;
    assert Decimal(8) == "8" && Decimal(80) == "80" && Decimal(800) == "800";
  }

  datatype UploadAnswer = Url(body: string) | IoError | NamesExhausted

  /** `upload` as written: choose a name with the naming loop as written
      (the check is on the path without `.zst`), create its `.zst` file and
      compress the request body into it. `createOk` is whether
      `File::create` succeeds and `encodeOk` whether `copy_encode` does; a
      file whose encoding failed stays on disk. The answer is the URL of the
      name as drawn (not lower-cased) followed by a newline. */
  method Upload(settings: Opt, candidates: seq<string>, lower: string -> string, files: set<Path>,
                createOk: bool, encodeOk: bool)
    returns (r: UploadAnswer, chosen: Option<nat>, newFiles: set<Path>)
    requires forall j :: 0 <= j < |candidates| ==> IsSingleComponent(lower(candidates[j]))
    ensures chosen.None? <==> r == NamesExhausted
    ensures chosen.None? ==> newFiles == files
    ensures chosen.None? ==> forall j :: 0 <= j < |candidates| ==> Checked(settings.output, candidates[j], lower) in files
    ensures chosen.Some? ==> chosen.value < |candidates|
    ensures chosen.Some? ==> Checked(settings.output, candidates[chosen.value], lower) !in files
    ensures chosen.Some? ==> forall j :: 0 <= j < chosen.value ==> Checked(settings.output, candidates[j], lower) in files
    ensures chosen.Some? ==>
      newFiles == (if createOk then files + {PasteFile(settings.output, candidates[chosen.value], lower)} else files)
    ensures chosen.Some? ==> (r.Url? <==> createOk && encodeOk)
    ensures r.Url? ==> r.body == Utils.GenUrl(settings.domain, candidates[chosen.value], settings.https) + "\n"
  {
    var filePath;
    chosen, filePath := NameLoop(settings.output, candidates, lower, files);
    r, newFiles := CreateAndEncode(settings, candidates, chosen, filePath, files, createOk, encodeOk);
  }

  /** `upload` with the corrected naming loop: the chosen name's `.zst` file
      did not exist. */
  method UploadFixed(settings: Opt, candidates: seq<string>, lower: string -> string, files: set<Path>,
                     createOk: bool, encodeOk: bool)
    returns (r: UploadAnswer, chosen: Option<nat>, newFiles: set<Path>)
    requires forall j :: 0 <= j < |candidates| ==> IsSingleComponent(lower(candidates[j]))
    ensures chosen.None? <==> r == NamesExhausted
    ensures chosen.None? ==> newFiles == files
    ensures chosen.None? ==> forall j :: 0 <= j < |candidates| ==> PasteFile(settings.output, candidates[j], lower) in files
    ensures chosen.Some? ==> chosen.value < |candidates|
    ensures chosen.Some? ==> PasteFile(settings.output, candidates[chosen.value], lower) !in files
    ensures chosen.Some? ==> forall j :: 0 <= j < chosen.value ==> PasteFile(settings.output, candidates[j], lower) in files
    ensures chosen.Some? ==>
      newFiles == (if createOk then files + {PasteFile(settings.output, candidates[chosen.value], lower)} else files)
    ensures chosen.Some? ==> (r.Url? <==> createOk && encodeOk)
    ensures r.Url? ==> r.body == Utils.GenUrl(settings.domain, candidates[chosen.value], settings.https) + "\n"
  {
    var filePath;
    chosen, filePath := NameLoopFixed(settings.output, candidates, lower, files);
    r, newFiles := CreateAndEncode(settings, candidates, chosen, filePath, files, createOk, encodeOk);
  }

  /** The part of `upload` after the naming loop: create `filePath`, encode
      into it and answer with the URL of the chosen name. */
  method CreateAndEncode(settings: Opt, candidates: seq<string>, chosen: Option<nat>, filePath: Path, files: set<Path>,
               createOk: bool, encodeOk: bool)
    returns (r: UploadAnswer, newFiles: set<Path>)
    requires chosen.Some? ==> chosen.value < |candidates|
    ensures chosen.None? <==> r == NamesExhausted
    ensures chosen.None? ==> newFiles == files
    ensures chosen.Some? ==> newFiles == (if createOk then files + {filePath} else files)
    ensures chosen.Some? ==> (r.Url? <==> createOk && encodeOk)
    ensures r.Url? ==> r.body == Utils.GenUrl(settings.domain, candidates[chosen.value], settings.https) + "\n"
  {
    newFiles := files;
    if chosen.None? {
      return NamesExhausted, newFiles;
    }
    if !createOk {
      return IoError, newFiles;
    }
    newFiles := files + {filePath};
    if !encodeOk {
      return IoError, newFiles;
    }
    var url := Utils.GenUrl(settings.domain, candidates[chosen.value], settings.https);
    url := url + "\n";
    r := Url(url);
  }

  /** The answer body is one line: the URL, ending in the name, then `\n`. */
  lemma UploadBodyIsOneLine(domain: string, name: string, https: bool)
    requires '\n' !in domain && '\n' !in name
    ensures var body := Utils.GenUrl(domain, name, https) + "\n";
      && body[|body| - 1] == '\n'
      && body[|body| - 1 - |name|..|body| - 1] == name
      && forall i :: 0 <= i < |body| - 1 ==> body[i] != '\n'
  {
    var url := Utils.GenUrl(domain, name, https);
    var d := Utils.TrimSlash(domain);
    assert '\n' !in d by {
      assert d <= domain;
    }
    var body := url + "\n";
    assert body[..|url|] == url;
    forall i | 0 <= i < |url| ensures url[i] != '\n' {
      var s := Utils.Scheme(https);
      assert url == s + d + "/" + name;
      if i < |s| {
        assert url[i] == s[i];
      } else if i < |s| + |d| {
        assert url[i] == d[i - |s|];
      } else if i >= |s| + |d| + 1 {
        assert url[i] == name[i - |s| - |d| - 1];
      }
    }
  }

  const NotFoundRedirect: string := "/usage?not_found=true"

  /** What `retrieve` answers: a page, a redirect, or a panic (the `unwrap`
      of a failed `File::open`). */
  datatype Page = Html(html: string) | Redirect(to: string) | Panic

  /** `retrieve`: render the paste stored at `output/to_lowercase(key).zst`.
      A path that is not a regular file, a stream that does not decode and a
      failed rendering all redirect to the usage page with `not_found`; a
      regular file that cannot be opened panics. */
  function Retrieve(settings: Opt, key: string, lower: string -> string, disk: Disk,
                    lossy: seq<byte> -> string, render: string -> Option<string>): (r: Page)
    ensures var path := PasteFile(settings.output, key, lower);
      && (r.Redirect? ==> r.to == NotFoundRedirect)
      && (r == Panic <==> path in disk.regular && path !in disk.openable)
      && (r.Html? <==> path in disk.regular && path in disk.openable && path in disk.decoded &&
                       render(lossy(disk.decoded[path])).Some?)
      && (r.Html? ==> r.html == render(lossy(disk.decoded[path])).value)
  {
    var path := PasteFile(settings.output, key, lower);
    if path !in disk.regular then Redirect(NotFoundRedirect)
    else if path !in disk.openable then Panic
    else if path !in disk.decoded then Redirect(NotFoundRedirect)
    else match render(lossy(disk.decoded[path]))
      case None => Redirect(NotFoundRedirect)
      case Some(html) => Html(html)
  }

  /** `retrieve_raw`: open `output/to_ascii_lowercase(key).zst` and stream it
      through a zstd decoder; `decoderOk` is whether `Decoder::new`
      succeeds. Either failure answers with an empty error string. */
  function RetrieveRaw(settings: Opt, key: string, disk: Disk, decoderOk: bool): (r: Result<Path, string>)
    ensures r.Success? <==> PasteFile(settings.output, key, AsciiLower) in disk.openable && decoderOk
    ensures r.Success? ==> r.value == PasteFile(settings.output, key, AsciiLower)
    ensures r.Failure? ==> r.error == ""
  {
    var path := PasteFile(settings.output, key, AsciiLower);
    if path !in disk.openable || !decoderOk then Failure("") else Success(path)
  }

  /** The two routes lower-case differently, yet for an ASCII key they read
      the same file: when one renders the paste the other streams it. */
  lemma RoutesAgreeOnAsciiKeys(settings: Opt, key: string, lower: string -> string, disk: Disk,
                               lossy: seq<byte> -> string, render: string -> Option<string>)
    requires AgreesOnAscii(lower) && IsAscii(key)
    requires Retrieve(settings, key, lower, disk, lossy, render).Html?
    ensures RetrieveRaw(settings, key, disk, true) == Success(PasteFile(settings.output, key, lower))
  {
    LowercasingsAgreeOnAscii(settings.output, key, lower);
  }

  /** `usage`: an absent `not_found` parameter is false. */
  function UsageNotFound(notFound: Option<bool>): (r: bool)
    ensures r <==> notFound == Some(true)
  {
    match notFound
    case None => false
    case Some(b) => b
  }
}
