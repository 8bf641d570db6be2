# utils_www `WWW` fetcher — a verified Dafny model

`WWW` (src/utils_www/WWW.py) fetches the content at a URL. It retries a GET
with exponential backoff, caches static content in a temp file named after
the URL's MD5 digest and file extension, and can render a page through a
headless browser instead. This project models the parts of that class that
contain logic. HTTP, the browser, the hash function and the temp directory's
location are oracles or parameters. Everything else is stated and proved in
Dafny.

Modules, one per concern of the source file:

- `Wrappers`: `Option` (Python's `None`/falsy arguments) and `Result` (raised exceptions).
- `Text`: `str.lower()` and `str.strip(c)`, as used by `WWW.ext`.
- `PosixPath`: `str.rfind`, `posixpath.splitext`, `posixpath.join` and the final path component.
- `Config`: the configuration `__init__` builds (`Www` value), with Python's `x or default` defaulting.
- `Naming`: `WWW.ext` and `WWW.temp_local_path`, with the md5 digest as a function parameter.
- `Retry`: `WWW.get_response`. The method `GetResponse` keeps the source's loop over `i_retry` and `t_sleep`. It is proved equal to the reference function `RetryFrom`, and the lemmas state what the source promises about that function. Attempt `i` of the HTTP GET is the oracle value `fetch(i)`. The warnings, sleeps (in integer milliseconds, 500·2^i) and the error line form an event trace.
- `Cache`: the temp directory as a `FileStore` class whose `files` map the operations update in place. It holds `__read_hot__`, `read_static` (cache-or-fetch), `read` (static or browser dispatch) and `download_binary` (chunked write).

Two points about the code that the model follows as written:

- Nothing enforces `max_retries >= 1` or a positive timeout. A negative `max_retries` is truthy, so `__init__` keeps it. `range` of it is empty, so `get_response` returns `None`. `read_static` then fails on `None.content` (`ReadError.NoContent`). `download_binary` has already truncated its target file by that point.
- Only failed attempts are logged. A successful attempt writes no log line.

## Model

| member | source | states |
|---|---|---|
| `Config.Init` | src/utils_www/WWW.py:23-46 | each falsy argument (None, 0, `{}`) becomes its default (User-Agent headers, timeout 120, Selenium wait 1, 5 retries); each truthy one is kept; no field of the result is falsy |
| `Config.InitIdempotent` | src/utils_www/WWW.py:41-46 | building a `WWW` from an existing object's own settings yields the same settings |
| `Retry.ZeroMaxRetriesMeansFive` | src/utils_www/WWW.py:46 | `max_retries=0` is falsy, so a run in which every attempt fails makes 5 attempts |
| `Text.LowerChar` | src/utils_www/WWW.py:53 | lowering one character: the result is never an upper-case letter; it differs from the input exactly when the input is an upper-case ASCII letter, and then by 32 code points |
| `Text.Lower` | src/utils_www/WWW.py:53 | `lower()`: same length; each character lowered on its own; upper-case ASCII letters move to lower case and nothing else changes |
| `Text.LowerOfLower` | src/utils_www/WWW.py:53 | text with no upper-case letter is unchanged by `lower()` |
| `Text.LeadingCount` | src/utils_www/WWW.py:53 | the number of `c` that open the string: all of them are `c` and the next character is not |
| `Text.TrailingCount` | src/utils_www/WWW.py:53 | the number of `c` that close the string: all of them are `c` and the character before them is not |
| `Text.Strip` | src/utils_www/WWW.py:53 | `strip(c)`: the result neither starts nor ends with `c`; it is the infix left after removing the maximal leading run of `c` and a trailing run made only of `c` |
| `Text.StripOneLeading` | src/utils_www/WWW.py:53 | stripping `.` from `"." + y`, where `y` has no dot, gives `y` |
| `PosixPath.RFind` | src/utils_www/WWW.py:53 | `rfind`: -1 or an index holding `c`, with no `c` after it |
| `PosixPath.RFindUnique` | src/utils_www/WWW.py:53 | an index holding `c` with no `c` after it (or -1 when there is no `c`) is the value `rfind` returns |
| `PosixPath.RFindSuffix` | src/utils_www/WWW.py:53 | searching a suffix finds the same last occurrence shifted, or none when it lies before the suffix |
| `PosixPath.LastComponent` | src/utils_www/WWW.py:53 | the text after the last `/`: a `/`-free suffix of the path |
| `PosixPath.LastComponentMaximal` | src/utils_www/WWW.py:53 | the final component is the longest `/`-free suffix: it is the whole path, or a `/` comes right before it |
| `PosixPath.Splitext` | src/utils_www/WWW.py:53 | `splitext`: root + ext is the path; ext is empty or a dot followed by text with no dot and no `/` |
| `PosixPath.SplitextOfLastComponent` | src/utils_www/WWW.py:53 | the extension `splitext` finds depends only on the final path component |
| `PosixPath.HasNonDotShift` | src/utils_www/WWW.py:53 | looking for a non-dot character in a suffix of a path looks at the same characters of the whole path |
| `PosixPath.SplitextOfName` | src/utils_www/WWW.py:53 | on a `/`-free name, `splitext` splits at the last dot when a non-dot character precedes it, and finds no extension otherwise |
| `PosixPath.Join` | src/utils_www/WWW.py:61-63 | `join(a, b)`: an absolute `b` replaces `a`; otherwise the result is `a`, then exactly one `/` when `a` is non-empty and does not already end in `/` (none otherwise), then `b` |
| `PosixPath.JoinUnique` | src/utils_www/WWW.py:61-63 | the properties stated for `join` leave only one possible result: any string with them is `join(a, b)` |
| `PosixPath.JoinLastComponent` | src/utils_www/WWW.py:63 | joining a `/`-free name makes it the final component of the result |
| `Naming.Ext` | src/utils_www/WWW.py:51-53 | `ext` holds no upper-case letter, no `.` and no `/`, so it neither starts nor ends with `.` |
| `Naming.ExtOfSuffix` | src/utils_www/WWW.py:53 | lowering and stripping dots from an extension `splitext` returned leaves the text after its dot, lowered |
| `Naming.ExtOfLastComponent` | src/utils_www/WWW.py:53 | `ext` of a URL equals `ext` of its text after the last `/` |
| `Naming.ExtOfSplit` | src/utils_www/WWW.py:53 | `ext` is the lowered text after the dot of the suffix `splitext` returns, or empty |
| `Naming.ExtOfName` | src/utils_www/WWW.py:53 | on a `/`-free name: the lowered text after the last dot when a non-dot character precedes that dot, else `""` |
| `Naming.ExtCharacterised` | src/utils_www/WWW.py:53 | reference definition: `ext` is the lower-cased text after the last dot of the final component when a non-dot character precedes that dot, else `""` |
| `Naming.LoweredTailEmptyIff` | src/utils_www/WWW.py:53 | the lowered text after a dot index, taken only when a non-dot character precedes the dot, is empty exactly when it is not taken or the dot is the last character |
| `Naming.ExtEmptyIff` | src/utils_www/WWW.py:53 | `ext` is empty exactly when the final component has no dot, has only leading dots before its last dot, or ends in a dot |
| `Naming.ExtOfJoin` | src/utils_www/WWW.py:53 | joining a `/`-free name onto any directory keeps the name's extension |
| `Naming.ExtOfStemDotSuffix` | src/utils_www/WWW.py:53 | a name `stem.e` (stem non-empty, not starting with a dot, no `/`; `e` with no dot and no `/`) has no `/` and has extension `e` lowered |
| `Naming.ExtOfStemAndSuffix` | src/utils_www/WWW.py:53 | a final component `stem.e` of any path has extension `e` lowered, whatever the directories contain |
| `Naming.ExtOfHiddenName` | src/utils_www/WWW.py:53 | a final component that is one dot followed by dot-free text (a hidden file) has no extension |
| `Naming.ExtOfDotlessName` | src/utils_www/WWW.py:53 | a final component without a dot has no extension, whatever dots the directories contain |
| `Naming.ExtOfPdfUrl` | src/utils_www/WWW.py:53 | `"http://example.com/file.PDF"` gives `"pdf"` |
| `Naming.ExtOfDottedDirectory` | src/utils_www/WWW.py:53 | `"a/b.c/d"` gives `""` |
| `Naming.ExtOfBareHost` | src/utils_www/WWW.py:53 | `"http://example.com"` gives `"com"` |
| `Naming.ExtOfHiddenFile` | src/utils_www/WWW.py:53 | `"dir/.bashrc"` gives `""` (a leading dot does not start an extension) |
| `Naming.CacheDir` | src/utils_www/WWW.py:61 | the cache directory `join(tmp, "www")` is `tmp + "/www"`, or `tmp + "www"` when `tmp` is empty or already ends in `/`; so it starts with `tmp` and ends with `www` |
| `Naming.CacheFileName` | src/utils_www/WWW.py:63 | the file name is `www.`, then the URL's md5 digest, then `.`, then `ext(url)`, with exactly that length |
| `Naming.CacheFileNameParts` | src/utils_www/WWW.py:63 | two URLs whose digests have the same length and whose file names agree have the same digest and the same extension |
| `Naming.TempLocalPath` | src/utils_www/WWW.py:59-63 | `temp_local_path` is the cache directory, one `/`, and the file name: `join` adds exactly one separator here |
| `Naming.TempLocalPathExact` | src/utils_www/WWW.py:59-63 | the whole cache path is `<tmp>/www/www.<md5(url)>.<ext(url)>`, with no `/` added after a `tmp` that is empty or ends in `/` |
| `Naming.TempLocalPathShape` | src/utils_www/WWW.py:59-63 | the cache path is the cache directory, `/`, then `www.<md5>.<ext>`: it starts with that directory and ends with that name; with an empty `ext` it ends in a bare `.` |
| `Naming.CacheFileNameExt` | src/utils_www/WWW.py:63 | a name `www.<h>.<e>` with a `/`-free digest has no `/` and has extension `e` |
| `Naming.CachePathKeepsExt` | src/utils_www/WWW.py:59-63 | for a `/`-free digest, the file name is the final component of the cache path, and the path's own extension is the URL's |
| `Naming.SharedCacheFileSharesExt` | src/utils_www/WWW.py:59-63 | two URLs that map to the same cache path have the same extension |
| `Retry.Pow2` | src/utils_www/WWW.py:85 | powers of two are at least 1 |
| `Retry.Backoff` | src/utils_www/WWW.py:67 | every scheduled sleep is at least 500 ms |
| `Retry.BackoffDoubles` | src/utils_www/WWW.py:83-85 | the first sleep is 500 ms and each later one is twice the one before |
| `Retry.RetryFrom` | src/utils_www/WWW.py:65-85 | reference semantics of the retry loop from attempt `i` with current delay `t_sleep`: no attempt once the budget is spent (`None`); a success returns its response; a failure on the last attempt logs the error line and re-raises; any other failure logs a warning, sleeps, doubles the delay and tries again. Its properties are the `Retry` lemmas below |
| `Retry.GetResponse` | src/utils_www/WWW.py:65-85 | the loop over `i_retry`/`t_sleep` returns exactly the reply, event trace and attempt count of the reference semantics `RetryFrom` |
| `Retry.RetryEnd` | src/utils_www/WWW.py:68-85 | every run from attempt `i`, whatever the sleep value: `None` iff no attempt is left; otherwise between one and the remaining budget of attempts, all but the last failed; a response only from a successful last attempt; the error re-raised only after the final allowed attempt failed, with the error line last in the trace |
| `Retry.RetryTrace` | src/utils_www/WWW.py:78-85 | with `t_sleep` on schedule, each failed attempt `j` before the last is followed by a warning naming it and then a sleep of 500·2^j ms, at trace positions 2j and 2j+1 |
| `Retry.SpecStartsAtBackoff` | src/utils_www/WWW.py:67 | `get_response` starts from the first scheduled sleep, 500 ms |
| `Retry.TraceLayout` | src/utils_www/WWW.py:68-85 | a run that makes at least one attempt logs one warning/sleep pair per attempt before the last, then at most one more line, which is the error line |
| `Retry.CountAppend` | src/utils_www/WWW.py:79-84 | event counts add up over concatenated traces |
| `Retry.CountPairs` | src/utils_www/WWW.py:83-84 | warning/sleep pairs hold one warning and one sleep per pair and no error line |
| `Retry.PairsPrefix` | src/utils_www/WWW.py:83-84 | `n` scheduled pairs in a row form a prefix of alternating warnings and sleeps |
| `Retry.CountSucceededRun` | src/utils_www/WWW.py:79-85 | a trace of `n` scheduled pairs holds `n` warnings, `n` sleeps and no error line |
| `Retry.CountFailedRun` | src/utils_www/WWW.py:79-84 | `n` scheduled pairs followed by an error line hold `n` warnings, `n` sleeps and exactly one error line |
| `Retry.SucceedsAfterFailures` | src/utils_www/WWW.py:68-85 | if attempt k is the first success, the response is returned after k+1 attempts, with exactly k warnings and k sleeps (500·2^j ms) and no error-level line |
| `Retry.AllAttemptsFail` | src/utils_www/WWW.py:78-82 | when every allowed attempt fails, the run makes all `max_retries` attempts, re-raises the last error and ends with the error line |
| `Retry.FailsAfterMaxRetries` | src/utils_www/WWW.py:78-85 | if every attempt fails: `max_retries` attempts, `max_retries - 1` warnings and sleeps, then exactly one error line ("Max retries reached"), and the last attempt's error is re-raised |
| `Retry.ReplyCases` | src/utils_www/WWW.py:65-85 | for every oracle: `None` iff `max_retries <= 0`; a response iff some attempt within the budget succeeds; the re-raised error iff all attempts fail; never more than `max_retries` attempts |
| `Retry.SleepsFollowWarnings` | src/utils_www/WWW.py:83-85 | in a trace of scheduled pairs and at most one error line, every sleep sits at an odd position right after a warning, with its pair's delay |
| `Retry.SleepSchedule` | src/utils_www/WWW.py:83-85 | every sleep directly follows a warning, and the j-th sleep is 500·2^j ms |
| `Cache.FileStore.Exists` | src/utils_www/WWW.py:93 | `temp_file.exists`: true exactly when the store holds a file at the path |
| `Cache.FileStore.MakeDirs` | src/utils_www/WWW.py:62 | `makedirs(exist_ok=True)` adds the directory and changes no file |
| `Cache.FileStore.Read` | src/utils_www/WWW.py:94 | reading an existing file returns its stored content |
| `Cache.FileStore.Write` | src/utils_www/WWW.py:96 | writing replaces that one path's content and nothing else |
| `Cache.HotRead` | src/utils_www/WWW.py:87-89 | `__read_hot__` succeeds iff `get_response` returned a response, with its body; otherwise the re-raised error, or the `None.content` failure |
| `Cache.ReadHot` | src/utils_www/WWW.py:87-89 | `__read_hot__` returns the body of the retried fetch, with that fetch's trace and attempt count |
| `Cache.ReadStaticSpec` | src/utils_www/WWW.py:91-97 | reference semantics of `read_static`: a cached file is returned with no fetch; otherwise one retried fetch, whose body is stored at the cache path on success. Only that path can be added, and after a success it holds the returned content |
| `Cache.ReadStatic` | src/utils_www/WWW.py:91-97 | returns, logs and stores exactly what the cache-or-fetch reference `ReadStaticSpec` gives, and creates the cache directory |
| `Cache.CacheHit` | src/utils_www/WWW.py:92-94 | on a hit the stored content is returned unchanged, with no attempt, no log and no change to the files |
| `Cache.CacheMiss` | src/utils_www/WWW.py:95-97 | on a miss: one retried fetch; content iff some attempt succeeds; then exactly that body is stored at the cache path and no other entry changes; on failure nothing is stored |
| `Cache.SecondReadHits` | src/utils_www/WWW.py:91-97 | after a successful `read_static`, a second call on the same URL is a hit returning the same content with no fetch |
| `Cache.ReadStaticKeepsEntries` | src/utils_www/WWW.py:91-97 | `read_static` never deletes or rewrites an existing cache entry |
| `Cache.RenderResult` | src/utils_www/WWW.py:99-107 | the browser's page, or its failure as a render error |
| `Cache.Read` | src/utils_www/WWW.py:109-112 | `read(with_selenium=True)` is the browser oracle's page and touches no file; `read(with_selenium=False)` is exactly `read_static()` |
| `Cache.Chunks` | src/utils_www/WWW.py:118 | `iter_content(n)` yields non-empty chunks of at most `n` characters |
| `Cache.ConcatSnoc` | src/utils_www/WWW.py:118-119 | appending one more chunk appends its text to the concatenation |
| `Cache.ConcatChunks` | src/utils_www/WWW.py:118-119 | the chunks concatenate back to the body |
| `Cache.DownloadBinary` | src/utils_www/WWW.py:114-120 | after a successful fetch the file holds exactly the body and the path is returned; after a failed fetch no file is touched and the error is raised; a `None` response leaves the file truncated to empty |

## Left out

- The HTTP request itself, `raise_for_status` and the headers, timeout and disabled TLS verification passed to it (src/utils_www/WWW.py:70-76). These belong to the HTTP library. Each attempt's outcome is the oracle value `fetch(i)`; the headers and timeout are only stored.
- UTF-8 decoding in `__read_hot__` and the difference between bytes and text. The response body is one string, and a decoding error is not modelled.
- `read_with_selenium` (src/utils_www/WWW.py:99-107): browser automation, including its `time.sleep(t_selenium_wait)`. It is the oracle `render(url)`.
- `soup` (src/utils_www/WWW.py:122-126): a call-through to the HTML parser.
- `__str__` (src/utils_www/WWW.py:48-49): display only.
- The process-wide SSL and urllib3 patching (src/utils_www/WWW.py:17-18): a global side effect.
- The internals of `Hash.md5`: it is an arbitrary function parameter. `tempfile.gettempdir()` is the parameter `tmp`.
- Wall-clock sleeping. A sleep is a `Sleep(ms)` event.
- Log text beyond level, attempt number, retry budget, URL, error and delay. The "Max retries reached" marker is the `LogError` event, the only error-level line.
- Float `t_sleep` overflow. The source doubles a float, which would reach infinity after about 1024 retries. The model's millisecond counter is unbounded.
- Non-integer timeouts and waits. The model takes `int` arguments.
- `Text.LowerChar`: maps only ASCII `A`-`Z` to `a`-`z`; other characters are left as they are.
- `Text.Lower`: maps only ASCII `A`-`Z`. Python's `str.lower()` also lowers other Unicode letters, some into several characters.
- `Cache.FileStore.MakeDirs`: records only the leaf directory. `os.makedirs` also creates missing parents.
- `Cache.FileStore.Exists`: sees only files. `os.path.exists` is also true for a directory at the cache path.
- Filesystem failures (permissions, a missing directory, disk full): `Write` always succeeds.
- Concurrent processes writing the same cache file: the model is single-threaded.
