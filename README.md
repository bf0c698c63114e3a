# termpad paste server — a Dafny model

termpad stores pastes that arrive over HTTP. It gives each paste a random
three-word name, made of two adjectives and a noun. The paste is compressed
with zstd into `<output>/<name>.zst`, and the server answers with the paste's
URL. Pastes are served back either rendered in a page or raw. A background
sweeper removes pastes older than `delete_after` days.

The repository has two front ends, and both are modelled:
- the Rocket server in `src/main.rs`, configured from the command line;
- the axum handlers in `src/handlers.rs`, configured from the environment by
  `src/config.rs`.

This project models the sequential logic of those files and of
`src/utils.rs`. Everything outside that logic is a parameter:
- the random word choice, a sequence of candidate names or indices;
- the filesystem, sets of paths plus a `Disk` value saying which paths are
  regular, openable and decodable;
- the clock, `now`;
- the home directory, `Option<Path>`;
- the zstd encoder, a script of read results, and the file writer, a script
  of write results;
- the Unicode lower-casing, the libraries' string parsers, the UTF-8
  decoding and the template rendering, all function parameters.

Modules, one per file:
- `Basics` holds value types, the error enum of `src/error.rs`, ASCII case
  mapping and decimal formatting.
- `Paths` models the Unix behaviour of Rust's `Path`/`PathBuf`, component
  by component: `push`, `pop`, `set_extension` and `starts_with`.
- `Utils` covers `src/utils.rs`: names, URLs, tilde expansion and one
  retention pass.
- `Store` holds the on-disk layout and the naming loop. `src/main.rs` and
  `src/handlers.rs` both use it.
- `Handlers`, `RocketServer` and `Config` cover `src/handlers.rs`,
  `src/main.rs` and `src/config.rs`.

Notes on the code:
- The sweeper sleeps `2 * SECS_IN_DAY` between passes, so it runs every
  two days.
- In `upload`, a write that accepts 0 bytes gives
  `Error::Other("Something went wrong")`.
- With no read error and a writer that accepts everything it is offered,
  the copy loop of `upload` hands the writer bytes that are not the
  encoder's output whenever that output's length is not a multiple of 255;
  see Findings.
- The inner write loop of `upload` is its own method (Handlers.WriteChunk),
  so `wrote_total` is a local variable there. The source resets it to 0
  after every inner loop, so it is 0 at the start of each one either way.
- The `Opt` of `src/options.rs` lacks the `port` and `delete_after` fields
  that `src/main.rs` reads. The model gives `Opt` the fields that
  `src/main.rs` uses.
- `src/handlers.rs:142` applies `.map` to the `String` returned by
  `gen_url`, which comes from another version of that function. The model
  answers with the URL itself.

## Model

| member | source | states |
|---|---|---|
| Basics.AsciiLower | src/handlers.rs:26 | `to_ascii_lowercase` keeps the length and maps each character independently: `A`–`Z` become `a`–`z`, everything else is unchanged |
| Basics.AsciiLowerOfUpper | src/handlers.rs:26 | lower-casing an upper-cased key gives the same result as lower-casing the key itself |
| Basics.Decimal | src/main.rs:38 | `format!("{}", n)` is a non-empty string of decimal digits that denotes n, with no leading zero for n ≥ 10 |
| Paths.Parse | src/handlers.rs:26 | a string read as a path gives well-formed components, and the path is absolute exactly when the string starts with `/` |
| Paths.ParseComponents | src/handlers.rs:26 | the components of a string read as a path are its `/`-separated segments without the empty ones and `.`, except that a relative path keeps a leading `.` |
| Paths.Join | src/handlers.rs:105 | `push` of an absolute path replaces the path; pushing a relative path onto the empty path gives it unchanged; otherwise the old components are followed by the pushed path's normal components |
| Paths.Pop | src/handlers.rs:110 | `pop` removes exactly the last component and leaves a path without components unchanged |
| Paths.PopAfterPush | src/handlers.rs:105-110 | pushing one normal component and then popping gives back the original path: the naming loop's `file_path` returns to `output` |
| Paths.SetExtension | src/handlers.rs:112 | `set_extension` keeps every component but the last, and replaces the last one by its stem plus `.ext` |
| Paths.StripPrefix | src/utils.rs:66 | `strip_prefix` gives the relative remainder, which appended to the prefix rebuilds the path |
| Paths.StartsWith | src/utils.rs:56 | `starts_with` of a base that is absolute or has a component holds exactly when the two paths are both absolute or both relative and the base's components are the path's first components |
| Paths.StartsWithTildeIsComponentwise | src/utils.rs:56 | `starts_with("~")` holds exactly when the first component is `~` in a relative path |
| Paths.ParseTildeFoo | src/utils.rs:56-66 | `~/foo` reads as the two components `~` and `foo`, so it starts with `~` |
| Paths.TildeFooIsNotTilde | src/utils.rs:56-58 | `~foo` does not start with `~`, so `expand_tilde` returns it unchanged |
| Utils.GenName | src/utils.rs:26-34 | a name is adjective, adjective, noun, drawn from the lists; the lists must be non-empty; its length and its first and last words are stated |
| Utils.NameIsPlainComponent | src/utils.rs:26-34 | over lists of lower-case ASCII words, a name is one path component without `.`, and lower-casing leaves it unchanged |
| Utils.GenUrl | src/utils.rs:36-51 | the URL starts with `https://` or `http://` as asked, then the domain; a `/` is added exactly when the domain does not end in one; it ends with the name |
| Utils.ExpandTilde | src/utils.rs:53-71 | as written: a path not starting with `~` is unchanged; `~` gives the home directory; an unknown home gives None; home `/` strips the `~`; any other home gets the rest appended |
| Utils.ExpandTildeRootHomeIsRelative | src/utils.rs:62-66 | as written, `~/foo` with home `/` expands to the relative path `foo` |
| Utils.ExpandTildeFixed | src/utils.rs:53-71 | corrected expansion: unchanged without `~`; None exactly when the home directory is unknown; `~` gives the home directory |
| Utils.ExpandTildeFixedUnderHome | src/utils.rs:67-70 | corrected expansion: `~/rest` with an absolute home, `/` included, is absolute; its components are the home's components followed by `rest` |
| Utils.ExpandTildeFixedIdempotent | src/utils.rs:53-71 | corrected expansion with an absolute home: expanding a second time changes nothing |
| Utils.SweepPeriodIsTwoDays | src/utils.rs:76 | the sweeper sleeps 172800 s between passes, which is two days |
| Utils.KeepForSecs | src/utils.rs:86 | `delete_after * 86400` always fits in a `u64`, and is 0 exactly when `delete_after` is 0 |
| Utils.CleanFiles | src/utils.rs:85-122 | the loop of one pass leaves exactly the entries, and counts exactly the removals, that the entry-by-entry `Sweep` specification gives |
| Utils.SweepIsFilterUpToStop | src/utils.rs:92-121 | before the first regular file without a creation time, exactly the expired files whose removal succeeds disappear and are counted; that file and everything after it are left untouched |
| Utils.SweepCountsRemovals | src/utils.rs:113-121 | each entry either remains or is counted: remaining + deleted equals the number of entries |
| Utils.TtlBoundary | src/utils.rs:113 | a file exactly `delete_after` days old is removed; a file 1 ns younger is kept |
| Utils.ZeroTtlRemovesEveryFile | src/utils.rs:86-88 | with `delete_after == 0`, a pass removes every regular file created at or before `now`; this is why startup leaves the sweeper off |
| Store.Checked | src/handlers.rs:104-106 | the path the naming loop tests, `output` pushed with the lower-cased name: for a name that is one component, `output`'s components followed by that name, absolute exactly when `output` is |
| Store.PasteFile | src/handlers.rs:25-29 | the paste file of a key, `output/lower(key).zst`: for a lower-cased key that is a plain name, `output`'s components followed by `lower(key).zst`, absolute exactly when `output` is |
| Store.PasteFileOfPlainName | src/handlers.rs:105-114 | for a plain name, the created file is `output/name.zst` and the checked path is `output/name`; both are in `output`, and they differ only by the extension |
| Store.LookupIgnoresAsciiCase | src/handlers.rs:25-29 | the paste path of a key does not depend on the ASCII case the key was typed in |
| Store.LowercasingsAgreeOnAscii | src/main.rs:104-108 | for an ASCII key, Unicode and ASCII lower-casing give the same paste path and the same checked path |
| Store.NameLoop | src/handlers.rs:102-112 | as written: the loop returns the first candidate whose extensionless path is not a regular file, and every earlier candidate's path was one; `file_path` is `output/lower(name).zst`, or `output` when every candidate collided; `file_path == output` at each loop head |
| Store.NameLoopMissesExistingPaste | src/handlers.rs:106-112 | as written, with the paste `abc.zst` stored, the candidate `abc` passes the check although its `.zst` file exists |
| Store.CheckMissesPaste | src/handlers.rs:106-112 | for every key whose lower-cased form is a plain name, the path the loop tests is never the paste file that `upload` creates |
| Store.NameLoopFixed | src/handlers.rs:102-112 | corrected loop: the returned candidate's `.zst` file does not exist; every earlier candidate's does; `file_path` is that file |
| Handlers.Offer | src/handlers.rs:128 | a write accepts at most what it is offered; None stands for an I/O error |
| Handlers.Fill | src/handlers.rs:126 | a read overwrites the front of the buffer and leaves the rest as it was |
| Handlers.WriteChunk | src/handlers.rs:127-134 | the inner write loop as written, over the 255-byte array, gives exactly the error, the written bytes and the write count of the `WriteAll` specification |
| Handlers.CopyLoop | src/handlers.rs:122-140 | the copy loop as written, reading into the zeroed 255-byte array and writing each chunk with WriteChunk, gives exactly the status and the bytes handed to the writer of the `Outer` specification |
| Handlers.FirstWriteDecides | src/handlers.rs:128-133 | as written, when the encoder reads data and the first write fails, the copy fails at once with an I/O error and hands nothing to the writer; when it accepts 0 bytes, it fails with "Something went wrong" |
| Handlers.EndOfDataStopsCopy | src/handlers.rs:137-139 | a read of 0 bytes ends the copy successfully, with no further write |
| Handlers.AsWrittenFileLength | src/handlers.rs:128 | as written, with a writer that accepts everything, each non-empty chunk hands exactly 255 bytes to the writer |
| Handlers.AsWrittenIsNotEncoderOutput | src/handlers.rs:128 | as written, with no read error and a writer that accepts everything it is offered, the bytes handed to the writer differ from the encoder's output whenever the output's length is not a multiple of 255 |
| Handlers.AsWrittenPadsShortChunk | src/handlers.rs:122-128 | as written, with a writer that accepts everything it is offered, a 3-byte encoder read is handed to the writer followed by 252 stale zero bytes |
| Handlers.AsWrittenRepeatsAfterShortWrite | src/handlers.rs:127-129 | as written, after a 100-byte short write the retry rewrites the buffer from its start, giving 355 bytes for a 255-byte chunk |
| Handlers.WriteAllFailureCauses | src/handlers.rs:127-133 | the writes for one chunk fail with an I/O error only after a write error in the script; any other failure is "Something went wrong" and needs a write that accepted 0 bytes |
| Handlers.CopyFailureCauses | src/handlers.rs:125-133 | an I/O failure of the copy needs a read error before the end of data or a write error; any other failure is "Something went wrong", and needs a write that accepted 0 bytes |
| Handlers.WriteUnwritten | src/handlers.rs:127-134 | the corrected inner loop over a chunk gives exactly the error, the written bytes and the write count of the `WriteAllFixed` specification |
| Handlers.WriteAllFixedWritten | src/handlers.rs:127-134 | the corrected writes hand over all the unwritten bytes of a chunk when no write fails, and a prefix of them when one does |
| Handlers.WriteAllFixedCauses | src/handlers.rs:128-133 | the corrected writes fail with an I/O error only after a write error in the script; any other failure is "Something went wrong" and needs a write that accepted 0 bytes |
| Handlers.WriteChunkFixed | src/handlers.rs:127-134 | corrected inner loop, offering `buff[wrote_total..read]`, over the 255-byte array: its result is that of `WriteAllFixed`; without an error the bytes written are exactly the `read` bytes of the chunk, with one a prefix of them; the only errors are I/O, which needs a write error in the script, and "Something went wrong", which needs a write accepting 0 bytes |
| Handlers.CopyChunksFixed | src/handlers.rs:122-140 | the copy loop with the corrected inner loop, over the 255-byte array, gives exactly the status and the bytes handed to the writer of the `OuterFixed` specification |
| Handlers.FirstWriteDecidesFixed | src/handlers.rs:128-133 | with the corrected inner loop too, a first write that fails for a chunk with data fails the copy at once with an I/O error, and one accepting 0 bytes with "Something went wrong" |
| Handlers.OuterFixedFacts | src/handlers.rs:122-140 | the corrected copy from any read on hands the writer a prefix of the encoder's remaining output, all of it on success; an I/O failure needs a later read or write error, any other failure is "Something went wrong" and needs a write accepting 0 bytes |
| Handlers.CopyLoopFixed | src/handlers.rs:122-140 | copy loop with the corrected inner loop (WriteChunkFixed), offering `buff[wrote_total..read]`: its result is that of `OuterFixed`; on success the writer has been handed exactly the encoder's output, on failure a prefix of it; an I/O failure needs a read error before the end of data or a write error, and the only other failure, "Something went wrong", needs a write accepting 0 bytes, so without these the copy succeeds |
| Handlers.Upload | src/handlers.rs:101-142 | as written: the chosen name's extensionless path was not a regular file and every earlier candidate's was; its `.zst` file is created and stays on disk after a failed copy; the bytes handed to the writer and the success of the copy are those of the `Outer` specification; success answers `gen_url` of the name as drawn; a failure returns the error of the `Outer` specification's status; an I/O failure of the copy needs a read or write error, "Something went wrong" a write accepting 0 bytes |
| Handlers.UploadFixed | src/handlers.rs:101-142 | with the corrected naming and copy loops: the chosen name's `.zst` file did not exist and every earlier candidate's did; the bytes handed to the writer, the success and the error of the copy are those of the `OuterFixed` specification; success hands the writer exactly the encoder's output; the failure causes are those of CopyLoopFixed |
| Handlers.GetRaw | src/handlers.rs:24-38 | reads `output/ascii_lowercase(key).zst`; fails with an I/O error exactly when that file cannot be opened |
| Handlers.GetWeb | src/handlers.rs:40-66 | NotFound when the path is not a regular file, checked before any open; an I/O error when the open or the decoding fails; NotFound when rendering fails; otherwise the rendered page |
| Handlers.GetWebOutcomes | src/handlers.rs:47-65 | success holds exactly when the file is regular, opens, decodes and renders; NotFound holds exactly for a missing file or a failed rendering; every failure is NotFound or I/O |
| Handlers.RetrievalIgnoresAsciiCase | src/handlers.rs:25-45 | `get_raw` and `get_web` answer the same for a key and its upper-case form |
| Handlers.UploadedPasteIsServed | src/handlers.rs:41-45 | the file that upload creates for an ASCII name is the file both lookups read for that name |
| Handlers.UsageNotFound | src/handlers.rs:74 | `not_found` is true only when a query carries true; no query means false |
| RocketServer.Startup | src/main.rs:33-55 | the outcome of `main`'s checks: no home directory, a failed directory creation and an unwritable directory each abort, in that order; `output` is expanded by `expand_tilde` as written; exactly a `localhost` domain becomes `localhost:<port>`; the sweeper starts exactly when `delete_after != 0` |
| RocketServer.LocalhostRewrite | src/main.rs:37-39 | the rewritten domain is never `localhost`, so the rewrite applies once; port 8000 gives `localhost:8000` |
| RocketServer.Upload | src/main.rs:78-100 | as written: the chosen name's extensionless path was not a regular file, and every earlier candidate's was; the file exists once created, even when encoding fails; success needs both the create and the encode; the body is `gen_url` of the name, not lower-cased, followed by `\n` |
| RocketServer.UploadFixed | src/main.rs:78-100 | with the corrected naming loop: the chosen name's `.zst` file did not exist, and every earlier candidate's did; the rest as for Upload |
| RocketServer.CreateAndEncode | src/main.rs:92-99 | after the naming loop: the file exists once created, even when encoding fails; success needs both the create and the encode; the body is `gen_url` of the chosen name followed by `\n` |
| RocketServer.UploadBodyIsOneLine | src/main.rs:96-99 | for a domain and a name without newlines, the body is one line: the URL ends with the name, and the only newline ends the body |
| RocketServer.Retrieve | src/main.rs:102-126 | reads `output/to_lowercase(key).zst`; every redirect goes to `/usage?not_found=true`; a regular file that cannot be opened panics; a page is served exactly when the file is regular, opens, decodes and renders |
| RocketServer.RetrieveRaw | src/main.rs:128-141 | reads `output/to_ascii_lowercase(key).zst`; succeeds exactly when the file opens and the decoder is created; otherwise fails with the empty string |
| RocketServer.RoutesAgreeOnAsciiKeys | src/main.rs:104-134 | for an ASCII key, when `retrieve` renders a paste, `retrieve_raw` streams the same file |
| RocketServer.UsageNotFound | src/main.rs:146 | an absent `not_found` is false |
| Config.Default | src/config.rs:27-37 | output `default`, domain `localhost`, https off, port 8000, 120 days |
| Config.ReadConfig | src/config.rs:42-75 | a missing `OUTPUT` fails; so does a failed tilde expansion (`expand_tilde` as written); then parse failures fail in the order `HTTPS`, `PORT`, `DELETE_AFTER`, carrying the value; success holds exactly when none of these happen; each present value overrides its default; `DOMAIN_NAME` is taken verbatim; a final `localhost` gets the final port appended |
| Config.OutputExpansion | src/config.rs:46-51 | an `OUTPUT` without `~` is used as given; `~/…` with an absolute home other than `/` gives an absolute output, and with the home `/` a relative one |

## Left out

- zstd compression and decompression are a foreign library. The encoder is a script of reads, decoding is the `decoded` map of `Disk`, and `copy_encode` is a success flag. No compression round trip is claimed.
- HTTP, routing, responses and rendering (Rocket, axum, askama, `INPUT_PAGE`, `web_input`/`web_paste`, the fallback usage page) are I/O and UI. Rendering is a function parameter, and so is `from_utf8_lossy`.
- Decoding errors in `get_raw` and `retrieve_raw` occur while the body streams, after the answer has started, so they are not modelled.
- `Error::into_response` is `todo!()`, so the model stops at the `Error` value.
- `clean_files_task` is a thread and an endless sleep loop. The model covers one pass, with `now` given, and the period constant.
- Races between concurrent uploads, and between an upload and the sweeper, are concurrency and are not modelled.
- The real filesystem effects (`read_dir().unwrap()` panics, `create_dir_all`, the probe file of `dir_is_writable`) are success flags and sets of paths. File contents are not modelled: `File::create` truncating an existing paste is not visible in the model.
- Handlers.CopyLoop, Handlers.CopyLoopFixed, Handlers.Upload, Handlers.UploadFixed: the bytes they return are those handed to the `BufWriter` of `src/handlers.rs:115`. It is never flushed before `upload` returns (`src/handlers.rs:142`), so which of them reach the disk is not modelled.
- The Rocket `ConfigBuilder` and `launch` are library calls; `Startup` stops before them.
- Unicode `to_lowercase`, `bool`/`u16`/`u32` `FromStr` and `home_dir()` are parameters. Lemmas that need ASCII behaviour of `to_lowercase` assume only that it agrees with `to_ascii_lowercase` on ASCII text.
- An environment variable that is set but is not Unicode makes `env::var` fail like an unset one. The model's `env` map only holds variables that read successfully.
- Utils.CleanFiles: the `u32` counter cannot overflow in practice, so the model counts with a `nat`. Adding the retention period to a `SystemTime` can overflow and panic, which the model does not capture; times are unbounded nanoseconds.
- Handlers.Upload, Handlers.UploadFixed, RocketServer.Upload, RocketServer.UploadFixed: `gen_name` loops forever while every name collides. With a finite candidate sequence the model returns `NamesExhausted` instead.
- Store.NameLoop, Store.NameLoopFixed, Handlers.Upload, Handlers.UploadFixed, RocketServer.Upload, RocketServer.UploadFixed require each lower-cased candidate to be one path component, which holds for every `gen_name` result (Utils.NameIsPlainComponent).

## Findings

| source | as written | input that shows it | evidently intended | confidence | as-written member | corrected member |
|---|---|---|---|---|---|---|
| src/utils.rs:62-66 | for the home directory `/`, the `~` is only stripped, so the result is a relative path | `~/foo` with home `/` gives `foo`, which resolves against the working directory | `/foo`: the comment only wants to avoid a doubled `/`, and pushing onto `/` already gives that | not executed | Utils.ExpandTildeRootHomeIsRelative | Utils.ExpandTildeFixedUnderHome |
| src/handlers.rs:104-112 | the collision check tests `output/name`, but the file created is `output/name.zst`, which the check never sees (`src/main.rs:81-92` does the same) | with `abc.zst` stored, the candidate `abc` passes the check; `File::create` then truncates the existing paste | test `output/name.zst`, the file that will be created | not executed | Store.NameLoopMissesExistingPaste | Store.NameLoopFixed |
| src/handlers.rs:128 | every write is offered the whole 255-byte `buff`, not the `read` bytes just read or the part not yet written | with a writer that accepts everything it is offered, a 3-byte encoder read hands the writer its bytes followed by 252 stale buffer bytes; after a short write of 100 bytes the retry rewrites the buffer from the start | write `&buff[wrote_total..read]`, so the writer is handed exactly the encoder's output | not executed | Handlers.AsWrittenPadsShortChunk | Handlers.CopyLoopFixed |

The routes, `main` and `read_config` are modelled as written: they use
Utils.ExpandTilde, Store.NameLoop and Handlers.CopyLoop. The corrected
members are used by Handlers.UploadFixed and RocketServer.UploadFixed, the
two `upload` routes as evidently intended.
