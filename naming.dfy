/** How `WWW` names the local cache file of a URL
    (src/utils_www/WWW.py:51-63): `<tmp>/www/www.<md5(url)>.<ext>`.
    The temp directory and the md5 digest are parameters: the first comes
    from the environment, the second from a hash library. */
module Naming {
  import Text
  import PosixPath

  /** The extension `splitext` returns is empty or a dot followed by
      dot-free text; lower-casing and stripping dots leaves that text,
      lower-cased. */
  lemma ExtOfSuffix(x: string)
    requires x == [] || x[0] == '.'
    requires forall k :: 1 <= k < |x| ==> x[k] != '.'
    ensures Text.Strip(Text.Lower(x), '.') == if x == [] then [] else Text.Lower(x[1..])
  {
    if x != [] {
      var y := Text.Lower(x[1..]);
      assert Text.Lower(x) == ['.'] + y;
      Text.StripOneLeading(y, '.');
    }
  }

  /** `WWW.ext`: `os.path.splitext(url)[1].lower().strip(".")`. The result
      holds no upper-case letter, no dot and no slash at all. */
  function Ext(url: string): (e: string)
    ensures forall k :: 0 <= k < |e| ==> !Text.IsUpper(e[k]) && e[k] != '.' && e[k] != '/'
    ensures e == [] || (e[0] != '.' && e[|e| - 1] != '.')
  {
    var x := PosixPath.Splitext(url).1;
    ExtOfSuffix(x);
    Text.Strip(Text.Lower(x), '.')
  }

  /** The extension depends only on the text after the last `/`. */
  lemma ExtOfLastComponent(url: string)
    ensures Ext(url) == Ext(PosixPath.LastComponent(url))
  {
    PosixPath.SplitextOfLastComponent(url);
  }

  /** The extension is the lower-cased text after the dot of the suffix
      `splitext` finds. */
  lemma ExtOfSplit(url: string)
    ensures var x := PosixPath.Splitext(url).1;
            Ext(url) == if x == [] then [] else Text.Lower(x[1..])
  {
  }

  /** The extension of a `/`-free name `b`: the lower-cased text after
      its last dot when a non-dot character precedes that dot, else empty. */
  lemma ExtOfName(b: string)
    requires forall k :: 0 <= k < |b| ==> b[k] != '/'
    ensures var d := PosixPath.RFind(b, '.');
            Ext(b) == if 0 <= d && PosixPath.HasNonDot(b, 0, d) then Text.Lower(b[d + 1..]) else []
  {
    ExtOfSplit(b);
    PosixPath.SplitextOfName(b);
    var d := PosixPath.RFind(b, '.');
    if 0 <= d && PosixPath.HasNonDot(b, 0, d) {
      assert b[d..][1..] == b[d + 1..];
    }
  }

  /** `ext` of a URL is the lower-cased text after the last dot of its final
      component `b`, provided a non-dot character comes before that dot, and
      the empty string otherwise. */
  lemma ExtCharacterised(url: string)
    ensures var b := PosixPath.LastComponent(url);
            var d := PosixPath.RFind(b, '.');
            Ext(url) == if 0 <= d && PosixPath.HasNonDot(b, 0, d) then Text.Lower(b[d + 1..]) else []
  {
    ExtOfLastComponent(url);
    ExtOfName(PosixPath.LastComponent(url));
  }

  /** The lowered text after position `d` of `b`, taken only when `d` is a
      position and `c` holds, is empty exactly when it is not taken or `d`
      is the last position. */
  lemma LoweredTailEmptyIff(b: string, d: int, c: bool)
    requires -1 <= d < |b|
    ensures (if 0 <= d && c then Text.Lower(b[d + 1..]) else []) == [] <==> !(0 <= d < |b| - 1 && c)
  {
    if 0 <= d && c {
      assert |Text.Lower(b[d + 1..])| == |b| - d - 1;
    }
  }

  /** The extension is empty exactly when the final component has no dot,
      has only leading dots before its last dot, or ends in a dot. */
  lemma ExtEmptyIff(url: string)
    ensures var b := PosixPath.LastComponent(url);
            var d := PosixPath.RFind(b, '.');
            Ext(url) == [] <==> !(0 <= d < |b| - 1 && PosixPath.HasNonDot(b, 0, d))
  {
    ExtCharacterised(url);
    var b := PosixPath.LastComponent(url);
    var d := PosixPath.RFind(b, '.');
    LoweredTailEmptyIff(b, d, 0 <= d && PosixPath.HasNonDot(b, 0, d));
  }

  /** The directory the cache files live in: `os.path.join(tmp, "www")`,
      which starts with `tmp` and ends in `www`. */
  function CacheDir(tmp: string): (d: string)
    ensures |tmp| + 3 <= |d| && d[..|tmp|] == tmp && d[|d| - 3..] == "www"
    ensures d == if tmp == [] || tmp[|tmp| - 1] == '/' then tmp + "www" else tmp + "/www"
  {
    PosixPath.Join(tmp, "www")
  }

  /** `f"www.{md5}.{ext}"`: the prefix `www.`, the digest, a dot, then the
      extension. */
  function CacheFileName(md5: string -> string, url: string): (name: string)
    ensures var h := md5(url);
            && |name| == 5 + |h| + |Ext(url)|
            && name[..4] == "www." && name[4..4 + |h|] == h
            && name[4 + |h|] == '.' && name[5 + |h|..] == Ext(url)
  {
    var h, e := md5(url), Ext(url);
    CacheNameLayout(h, e);
    "www." + h + "." + e
  }

  /** Where each piece of `www.<h>.<e>` lies, on plain strings. */
  lemma CacheNameLayout(h: string, e: string)
    ensures var name := "www." + h + "." + e;
            && |name| == 5 + |h| + |e|
            && name[..4] == "www." && name[4..4 + |h|] == h
            && name[4 + |h|] == '.' && name[5 + |h|..] == e
  {
  }

  /** Digests have a fixed length (32 hex digits for md5), so the cache
      file name gives back both the digest and the extension. */
  lemma CacheFileNameParts(md5: string -> string, u1: string, u2: string)
    requires |md5(u1)| == |md5(u2)|
    requires CacheFileName(md5, u1) == CacheFileName(md5, u2)
    ensures md5(u1) == md5(u2) && Ext(u1) == Ext(u2)
  {
    var n1 := CacheFileName(md5, u1);
    var n2 := CacheFileName(md5, u2);
    assert md5(u1) == n1[4..4 + |md5(u1)|] == n2[4..4 + |md5(u2)|] == md5(u2);
    assert Ext(u1) == n1[5 + |md5(u1)|..] == n2[5 + |md5(u2)|..] == Ext(u2);
  }

  /** `WWW.temp_local_path`: the cache directory, one `/`, then the cache
      file name. */
  function TempLocalPath(tmp: string, md5: string -> string, url: string): (path: string)
    ensures path == CacheDir(tmp) + "/" + CacheFileName(md5, url)
  {
    var d := CacheDir(tmp);
    var name := CacheFileName(md5, url);
    assert d[|d| - 1] == "www"[2] && name[0] == "www."[0];
    PosixPath.Join(d, name)
  }

  /** The whole cache path: `<tmp>/www/www.<md5>.<ext>`, with no `/` added
      after a `tmp` that is empty or already ends in one. */
  lemma TempLocalPathExact(tmp: string, md5: string -> string, url: string)
    ensures var dir := if tmp == [] || tmp[|tmp| - 1] == '/' then tmp + "www" else tmp + "/www";
            TempLocalPath(tmp, md5, url) == dir + "/www." + md5(url) + "." + Ext(url)
  {
    RegroupCachePath(CacheDir(tmp), md5(url), Ext(url));
  }

  /** Regrouping the cache path's pieces, on plain strings. */
  lemma RegroupCachePath(d: string, h: string, e: string)
    ensures d + "/" + ("www." + h + "." + e) == d + "/www." + h + "." + e
  {
  }

  /** The cache path lies under the cache directory and ends with
      `www.<md5>.<ext>`; with an empty extension it ends in a bare dot. */
  lemma TempLocalPathShape(tmp: string, md5: string -> string, url: string)
    ensures var path := TempLocalPath(tmp, md5, url);
            var name := "www." + md5(url) + "." + Ext(url);
            && path == CacheDir(tmp) + "/" + name
            && |CacheDir(tmp)| <= |path| && path[..|CacheDir(tmp)|] == CacheDir(tmp)
            && |name| <= |path| && path[|path| - |name|..] == name
            && (Ext(url) == [] ==> path[|path| - 1] == '.')
  {
    var name := CacheFileName(md5, url);
    assert name[0] == 'w';
    var path := TempLocalPath(tmp, md5, url);
    if Ext(url) == [] {
      assert path[|path| - 1] == path[|path| - |name|..][|name| - 1];
    }
  }

  /** A name `www.<h>.<e>` with a `/`-free digest `h` and a well-formed
      extension `e` has no `/`, and its own extension is `e`. */
  lemma CacheFileNameExt(h: string, e: string)
    requires forall k :: 0 <= k < |h| ==> h[k] != '/'
    requires forall k :: 0 <= k < |e| ==> !Text.IsUpper(e[k]) && e[k] != '.' && e[k] != '/'
    ensures forall k :: 0 <= k < |"www." + h + "." + e| ==> ("www." + h + "." + e)[k] != '/'
    ensures Ext("www." + h + "." + e) == e
  {
    var stem := "www." + h;
    forall k | 0 <= k < |stem| ensures stem[k] != '/' {
      if k >= 4 {
        assert stem[k] == h[k - 4];
      }
    }
    assert "www." + h + "." + e == stem + "." + e;
    ExtOfStemDotSuffix(stem, e);
    Text.LowerOfLower(e);
  }

  /** When the digest holds no `/`, the cache file name is the final
      component of the cache path, and the path has the URL's extension. */
  lemma CachePathKeepsExt(tmp: string, md5: string -> string, url: string)
    requires forall k :: 0 <= k < |md5(url)| ==> md5(url)[k] != '/'
    ensures PosixPath.LastComponent(TempLocalPath(tmp, md5, url)) == CacheFileName(md5, url)
    ensures Ext(TempLocalPath(tmp, md5, url)) == Ext(url)
  {
    var name := CacheFileName(md5, url);
    CacheFileNameExt(md5(url), Ext(url));
    PosixPath.JoinLastComponent(CacheDir(tmp), name);
    ExtOfLastComponent(TempLocalPath(tmp, md5, url));
  }

  /** Two URLs that share a cache file (digests without `/`) share their
      extension. */
  lemma SharedCacheFileSharesExt(tmp: string, md5: string -> string, u1: string, u2: string)
    requires forall k :: 0 <= k < |md5(u1)| ==> md5(u1)[k] != '/'
    requires forall k :: 0 <= k < |md5(u2)| ==> md5(u2)[k] != '/'
    requires TempLocalPath(tmp, md5, u1) == TempLocalPath(tmp, md5, u2)
    ensures Ext(u1) == Ext(u2)
  {
    CachePathKeepsExt(tmp, md5, u1);
    CachePathKeepsExt(tmp, md5, u2);
  }

  /** Joining a `/`-free name onto any directory keeps the name's extension. */
  lemma ExtOfJoin(dir: string, name: string)
    requires forall k :: 0 <= k < |name| ==> name[k] != '/'
    ensures Ext(PosixPath.Join(dir, name)) == Ext(name)
  {
    PosixPath.JoinLastComponent(dir, name);
    ExtOfLastComponent(PosixPath.Join(dir, name));
    PosixPath.RFindUnique(name, '/', -1);
    ExtOfLastComponent(name);
  }

  /** A name `stem.e` without `/`, whose stem does not start with a dot
      and whose suffix `e` has no dot, has the extension `e` lower-cased. */
  lemma {:induction false} ExtOfStemDotSuffix(stem: string, e: string)
    requires stem != [] && stem[0] != '.'
    requires forall k :: 0 <= k < |stem| ==> stem[k] != '/'
    requires forall k :: 0 <= k < |e| ==> e[k] != '.' && e[k] != '/'
    ensures forall k :: 0 <= k < |stem + "." + e| ==> (stem + "." + e)[k] != '/'
    ensures Ext(stem + "." + e) == Text.Lower(e)
  {
    var name := stem + "." + e;
    var dot := |stem|;
    forall k | 0 <= k < |name|
      ensures name[k] != '/'
      ensures dot < k ==> name[k] != '.'
    {
      if k < dot {
        assert name[k] == stem[k];
      } else if k > dot {
        assert name[k] == e[k - dot - 1];
      }
    }
    PosixPath.RFindUnique(name, '.', dot);
    assert name[0] != '.';
    assert PosixPath.HasNonDot(name, 0, dot);
    assert name[dot + 1..] == e;
    ExtOfName(name);
  }

  /** A final component `stem.e`, whose stem does not start with a dot,
      has the extension `e` lower-cased: `file.PDF` gives `pdf`,
      `example.com` gives `com`, `archive.tar.gz` gives `gz`. */
  lemma ExtOfStemAndSuffix(dir: string, stem: string, e: string)
    requires stem != [] && stem[0] != '.'
    requires forall k :: 0 <= k < |stem| ==> stem[k] != '/'
    requires forall k :: 0 <= k < |e| ==> e[k] != '.' && e[k] != '/'
    ensures Ext(PosixPath.Join(dir, stem + "." + e)) == Text.Lower(e)
  {
    ExtOfStemDotSuffix(stem, e);
    ExtOfJoin(dir, stem + "." + e);
  }

  /** A final component that is a dot followed by dot-free text (a hidden
      file such as `.bashrc`) has no extension. */
  lemma ExtOfHiddenName(dir: string, e: string)
    requires forall k :: 0 <= k < |e| ==> e[k] != '.' && e[k] != '/'
    ensures Ext(PosixPath.Join(dir, "." + e)) == []
  {
    var name := "." + e;
    forall k | 0 <= k < |name|
      ensures name[k] != '/'
      ensures 0 < k ==> name[k] != '.'
    {
      if k > 0 {
        assert name[k] == e[k - 1];
      }
    }
    ExtOfJoin(dir, name);
    PosixPath.RFindUnique(name, '.', 0);
    ExtOfName(name);
  }

  /** A final component without a dot has no extension, whatever dots the
      directories before it contain. */
  lemma ExtOfDotlessName(dir: string, name: string)
    requires forall k :: 0 <= k < |name| ==> name[k] != '.' && name[k] != '/'
    ensures Ext(PosixPath.Join(dir, name)) == []
  {
    ExtOfJoin(dir, name);
    PosixPath.RFindUnique(name, '.', -1);
    ExtOfName(name);
  }

  /** Each example URL, written as its directory joined to its final
      component. */
  lemma PdfUrlAsJoin()
    ensures "http://example.com/file.PDF" == PosixPath.Join("http://example.com", "file" + "." + "PDF")
  {
  }

  lemma DottedDirectoryAsJoin()
    ensures "a/b.c/d" == PosixPath.Join("a/b.c", "d")
  {
  }

  lemma BareHostAsJoin()
    ensures "http://example.com" == PosixPath.Join("http://", "example" + "." + "com")
  {
  }

  lemma HiddenFileAsJoin()
    ensures "dir/.bashrc" == PosixPath.Join("dir", "." + "bashrc")
    ensures forall k :: 0 <= k < |"bashrc"| ==> "bashrc"[k] != '.' && "bashrc"[k] != '/'
  {
  }

  /** Worked example: an upper-case extension is lowered. */
  lemma ExtOfPdfUrl()
    ensures Ext("http://example.com/file.PDF") == "pdf"
  {
    PdfUrlAsJoin();
    assert Text.Lower("PDF") == "pdf";
    ExtOfStemAndSuffix("http://example.com", "file", "PDF");
  }

  /** Worked example: a dot in a directory name does not start an extension. */
  lemma ExtOfDottedDirectory()
    ensures Ext("a/b.c/d") == ""
  {
    DottedDirectoryAsJoin();
    ExtOfDotlessName("a/b.c", "d");
  }

  /** Worked example: a bare host yields its top-level domain. */
  lemma ExtOfBareHost()
    ensures Ext("http://example.com") == "com"
  {
    BareHostAsJoin();
    assert Text.Lower("com") == "com";
    ExtOfStemAndSuffix("http://", "example", "com");
  }

  /** Worked example: a leading dot alone does not start an extension. */
  lemma ExtOfHiddenFile()
    ensures Ext("dir/.bashrc") == ""
  {
    HiddenFileAsJoin();
    ExtOfHiddenName("dir", "bashrc");
  }
}
