/** The cache-or-fetch policy of `WWW.read_static`, the `read` dispatcher
    and `download_binary` (src/utils_www/WWW.py:87-120). The on-disk temp
    directory is a `FileStore` object whose map from path to content the
    operations update in place. */
module Cache {
  import opened Wrappers
  import opened Config
  import opened Retry
  import Naming

  /** The files and directories of the local disk that the fetcher sees. */
  class FileStore {
    var files: map<string, string>
    var dirs: set<string>

    constructor (files: map<string, string>, dirs: set<string>)
      ensures this.files == files && this.dirs == dirs
    {
      this.files := files;
      this.dirs := dirs;
    }

    /** `File(path).exists`. */
    predicate Exists(path: string)
      reads this
    {
      path in files
    }

    /** `os.makedirs(dir, exist_ok=True)`: idempotent. */
    method MakeDirs(dir: string)
      modifies this
      ensures files == old(files) && dirs == old(dirs) + {dir}
    {
      dirs := dirs + {dir};
    }

    /** `File(path).read()`. */
    method Read(path: string) returns (content: string)
      requires path in files
      ensures content == files[path]
    {
      content := files[path];
    }

    /** `File(path).write(content)`, or `open(path, "wb")` with "" (truncate). */
    method Write(path: string, content: string)
      modifies this
      ensures files == old(files)[path := content] && dirs == old(dirs)
    {
      files := files[path := content];
    }
  }

  /** Why reading failed: the last attempt's exception re-raised, the
      AttributeError of `None.content` when `get_response` returned None, or
      an exception of the headless browser. */
  datatype ReadError = FetchFailed(error: FetchError) | NoContent | RenderFailed(message: string)

  /** `__read_hot__` on the outcome of `get_response`. */
  function HotRead(o: Outcome): (r: Result<string, ReadError>)
    ensures r.Ok? <==> o.reply.Returned?
    ensures o.reply.Returned? ==> r.value == o.reply.response.content
    ensures o.reply.Raised? ==> r == Err(FetchFailed(o.reply.error))
    ensures o.reply.ReturnedNone? ==> r == Err(NoContent)
  {
    match o.reply
    case Returned(resp) => Ok(resp.content)
    case Raised(e) => Err(FetchFailed(e))
    case ReturnedNone => Err(NoContent)
  }

  /** `__read_hot__`: fetch with retries and return the body. */
  method ReadHot(w: Www, fetch: nat -> Attempt) returns (r: Result<string, ReadError>, trace: seq<Event>, attempts: nat)
    ensures var o := GetResponseSpec(w, fetch);
            r == HotRead(o) && trace == o.trace && attempts == o.attempts
  {
    var o := GetResponse(w, fetch);
    r, trace, attempts := HotRead(o), o.trace, o.attempts;
  }

  /** What one `read_static` call did: its result, the log of the fetch it
      made, the number of HTTP attempts, and the files afterwards. */
  datatype StaticRead = StaticRead(result: Result<string, ReadError>, trace: seq<Event>, attempts: nat,
                                   files: map<string, string>)

  /** Reference semantics of `read_static` on the files `files`. */
  function ReadStaticSpec(w: Www, files: map<string, string>, tmp: string, md5: string -> string,
                          fetch: nat -> Attempt): (s: StaticRead)
    ensures var path := Naming.TempLocalPath(tmp, md5, w.url);
            && s.files.Keys <= files.Keys + {path}
            && (s.result.Ok? ==> path in s.files && s.files[path] == s.result.value)
  {
    var path := Naming.TempLocalPath(tmp, md5, w.url);
    if path in files then StaticRead(Ok(files[path]), [], 0, files)
    else
      var o := GetResponseSpec(w, fetch);
      var r := HotRead(o);
      StaticRead(r, o.trace, o.attempts, if r.Ok? then files[path := r.value] else files)
  }

  /** `read_static`: return the cached file if it exists, otherwise fetch,
      store the body at the cache path and return it. */
  method ReadStatic(w: Www, store: FileStore, tmp: string, md5: string -> string, fetch: nat -> Attempt)
    returns (r: Result<string, ReadError>, trace: seq<Event>, attempts: nat)
    modifies store
    ensures var s := ReadStaticSpec(w, old(store.files), tmp, md5, fetch);
            r == s.result && trace == s.trace && attempts == s.attempts && store.files == s.files
    ensures store.dirs == old(store.dirs) + {Naming.CacheDir(tmp)}
  {
    store.MakeDirs(Naming.CacheDir(tmp));
    var path := Naming.TempLocalPath(tmp, md5, w.url);
    if store.Exists(path) {
      var content := store.Read(path);
      return Ok(content), [], 0;
    }
    r, trace, attempts := ReadHot(w, fetch);
    if r.Ok? {
      store.Write(path, r.value);
    }
  }

  /** A hit returns the stored content unchanged, makes no HTTP attempt,
      logs nothing and leaves the files as they were. */
  lemma CacheHit(w: Www, files: map<string, string>, tmp: string, md5: string -> string, fetch: nat -> Attempt)
    requires Naming.TempLocalPath(tmp, md5, w.url) in files
    ensures ReadStaticSpec(w, files, tmp, md5, fetch)
            == StaticRead(Ok(files[Naming.TempLocalPath(tmp, md5, w.url)]), [], 0, files)
  {
  }

  /** A miss fetches once, with retries: on success exactly the fetched
      body is stored at the cache path and every other path keeps its
      content; on failure the files are unchanged and the error surfaces. */
  lemma CacheMiss(w: Www, files: map<string, string>, tmp: string, md5: string -> string, fetch: nat -> Attempt)
    requires Naming.TempLocalPath(tmp, md5, w.url) !in files
    ensures var s := ReadStaticSpec(w, files, tmp, md5, fetch);
            var path := Naming.TempLocalPath(tmp, md5, w.url);
            var o := GetResponseSpec(w, fetch);
            && s.attempts == o.attempts
            && (s.result.Ok? <==> exists k :: 0 <= k < w.maxRetries && fetch(k).Succeeded?)
            && (s.result.Ok? ==> && s.result.value == o.reply.response.content
                                 && s.files.Keys == files.Keys + {path}
                                 && s.files[path] == s.result.value
                                 && forall p :: p in files ==> s.files[p] == files[p])
            && (s.result.Err? ==> s.files == files)
  {
    var path := Naming.TempLocalPath(tmp, md5, w.url);
    var r := HotRead(GetResponseSpec(w, fetch));
    ReplyCases(w, fetch);
    StoreOnSuccess(files, path, r);
  }

  /** Storing a fetched body at a path not yet present adds exactly that
      entry; a failed fetch stores nothing. */
  lemma StoreOnSuccess(files: map<string, string>, path: string, r: Result<string, ReadError>)
    requires path !in files
    ensures var f := if r.Ok? then files[path := r.value] else files;
            && (r.Ok? ==> && f.Keys == files.Keys + {path}
                          && f[path] == r.value
                          && forall p :: p in files ==> f[p] == files[p])
            && (r.Err? ==> f == files)
  {
  }

  /** Once `read_static` has returned content, a second call on the same
      URL is a hit: it returns the same content, fetches nothing and
      changes nothing. */
  lemma SecondReadHits(w: Www, files: map<string, string>, tmp: string, md5: string -> string,
                       fetch1: nat -> Attempt, fetch2: nat -> Attempt)
    requires ReadStaticSpec(w, files, tmp, md5, fetch1).result.Ok?
    ensures var first := ReadStaticSpec(w, files, tmp, md5, fetch1);
            ReadStaticSpec(w, first.files, tmp, md5, fetch2) == StaticRead(first.result, [], 0, first.files)
  {
  }

  /** Cache entries are never updated or deleted by `read_static`: every
      file that existed keeps its content. */
  lemma ReadStaticKeepsEntries(w: Www, files: map<string, string>, tmp: string, md5: string -> string,
                               fetch: nat -> Attempt)
    ensures var s := ReadStaticSpec(w, files, tmp, md5, fetch);
            files.Keys <= s.files.Keys && forall p :: p in files ==> s.files[p] == files[p]
  {
    var path := Naming.TempLocalPath(tmp, md5, w.url);
    var r := HotRead(GetResponseSpec(w, fetch));
    if path !in files && r.Ok? {
      assert ReadStaticSpec(w, files, tmp, md5, fetch).files == files[path := r.value];
    }
  }

  /** The result of the headless-browser oracle, with its failure as a
      read error. */
  function RenderResult(r: Result<string, string>): (res: Result<string, ReadError>)
    ensures res.Ok? <==> r.Ok?
    ensures r.Ok? ==> res.value == r.value
    ensures r.Err? ==> res == Err(RenderFailed(r.error))
  {
    match r
    case Ok(page) => Ok(page)
    case Err(msg) => Err(RenderFailed(msg))
  }

  /** `read(with_selenium)`: the rendered page from the browser oracle, or
      exactly `read_static()`. */
  method Read(w: Www, withSelenium: bool, store: FileStore, tmp: string, md5: string -> string,
              fetch: nat -> Attempt, render: string -> Result<string, string>)
    returns (r: Result<string, ReadError>, trace: seq<Event>, attempts: nat)
    modifies store
    ensures withSelenium ==> && r == RenderResult(render(w.url)) && trace == [] && attempts == 0
                             && store.files == old(store.files) && store.dirs == old(store.dirs)
    ensures !withSelenium ==> && var s := ReadStaticSpec(w, old(store.files), tmp, md5, fetch);
                              && r == s.result && trace == s.trace && attempts == s.attempts
                              && store.files == s.files
                              && store.dirs == old(store.dirs) + {Naming.CacheDir(tmp)}
  {
    if withSelenium {
      r, trace, attempts := RenderResult(render(w.url)), [], 0;
    } else {
      r, trace, attempts := ReadStatic(w, store, tmp, md5, fetch);
    }
  }

  const ChunkSize: nat := 1024

  /** `response.iter_content(n)` over a body already read: consecutive
      slices of `n` characters, the last one possibly shorter. */
  function Chunks(s: string, n: nat): (cs: seq<string>)
    requires n > 0
    ensures forall i :: 0 <= i < |cs| ==> 0 < |cs[i]| <= n
    decreases |s|
  {
    if s == [] then []
    else if |s| <= n then [s]
    else [s[..n]] + Chunks(s[n..], n)
  }

  function Concat(cs: seq<string>): string {
    if cs == [] then [] else cs[0] + Concat(cs[1..])
  }

  lemma {:induction false} ConcatSnoc(cs: seq<string>, c: string)
    ensures Concat(cs + [c]) == Concat(cs) + c
  {
    if cs == [] {
      assert [] + [c] == [c];
    } else {
      assert (cs + [c])[1..] == cs[1..] + [c];
      ConcatSnoc(cs[1..], c);
    }
  }

  /** Writing the chunks one after the other rebuilds the body. */
  lemma {:induction false} ConcatChunks(s: string, n: nat)
    requires n > 0
    ensures Concat(Chunks(s, n)) == s
    decreases |s|
  {
    if s != [] && |s| > n {
      ConcatChunks(s[n..], n);
      assert s == s[..n] + s[n..];
    }
  }

  /** `download_binary(file_path)`: fetch with retries, then open the file
      for writing (truncating it) and write the body chunk by chunk. */
  method DownloadBinary(w: Www, store: FileStore, filePath: string, fetch: nat -> Attempt)
    returns (r: Result<string, ReadError>, trace: seq<Event>)
    modifies store
    ensures var o := GetResponseSpec(w, fetch);
            && trace == o.trace
            && store.dirs == old(store.dirs)
            && (o.reply.Returned? ==> r == Ok(filePath)
                                      && store.files == old(store.files)[filePath := o.reply.response.content])
            && (o.reply.Raised? ==> r == Err(FetchFailed(o.reply.error)) && store.files == old(store.files))
            && (o.reply.ReturnedNone? ==> r == Err(NoContent) && store.files == old(store.files)[filePath := ""])
  {
    var o := GetResponse(w, fetch);
    trace := o.trace;
    if o.reply.Raised? {
      return Err(FetchFailed(o.reply.error)), trace;
    }
    store.Write(filePath, "");
    if o.reply.ReturnedNone? {
      return Err(NoContent), trace;
    }
    var chunks := Chunks(o.reply.response.content, ChunkSize);
    var i := 0;
    while i < |chunks|
      invariant 0 <= i <= |chunks|
      invariant store.files == old(store.files)[filePath := Concat(chunks[..i])]
      invariant store.dirs == old(store.dirs)
    {
      ConcatSnoc(chunks[..i], chunks[i]);
      assert chunks[..i + 1] == chunks[..i] + [chunks[i]];
      store.Write(filePath, store.files[filePath] + chunks[i]);
      i := i + 1;
    }
    assert chunks[..|chunks|] == chunks;
    ConcatChunks(o.reply.response.content, ChunkSize);
    r := Ok(filePath);
  }
}
