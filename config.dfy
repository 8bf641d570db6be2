/** The configuration a `WWW` object carries once `__init__` has run
    (src/utils_www/WWW.py:23-46). It is never changed afterwards, so it is a
    value. Python's `arg or default` is modelled with Option: an argument is
    falsy when it is absent (None) or equal to its type's zero (0, `{}`). */
module Config {
  import opened Wrappers

  type Headers = map<string, string>

  const DefaultHeaders: Headers :=
    map["User-Agent" := "Mozilla/5.0 (Windows NT 10.0; Win64; x64)" + " AppleWebKit/537.36 "]
  const DefaultTimeout: int := 120
  const DefaultSeleniumWait: int := 1
  const DefaultMaxRetries: int := 5

  datatype Www = Www(url: string, headers: Headers, tTimeout: int, tSeleniumWait: int, maxRetries: int)

  predicate Falsy<T(==)>(x: Option<T>, zero: T) {
    x.None? || x.value == zero
  }

  /** Python's `x or default`. */
  function Or<T(==)>(x: Option<T>, zero: T, default: T): T {
    if Falsy(x, zero) then default else x.value
  }

  /** No field of the configuration is falsy. */
  predicate Truthy(w: Www) {
    w.headers != map[] && w.tTimeout != 0 && w.tSeleniumWait != 0 && w.maxRetries != 0
  }

  /** `WWW.__init__`: every falsy argument is replaced by its default, every
      other argument is kept as given. */
  function Init(url: string, headers: Option<Headers>, tTimeout: Option<int>,
                tSeleniumWait: Option<int>, maxRetries: Option<int>): (w: Www)
    ensures w.url == url
    ensures Truthy(w)
    ensures w.headers == if Falsy(headers, map[]) then DefaultHeaders else headers.value
    ensures w.tTimeout == if Falsy(tTimeout, 0) then DefaultTimeout else tTimeout.value
    ensures w.tSeleniumWait == if Falsy(tSeleniumWait, 0) then DefaultSeleniumWait else tSeleniumWait.value
    ensures w.maxRetries == if Falsy(maxRetries, 0) then DefaultMaxRetries else maxRetries.value
  {
    assert "User-Agent" in DefaultHeaders;
    Www(url,
        Or(headers, map[], DefaultHeaders),
        Or(tTimeout, 0, DefaultTimeout),
        Or(tSeleniumWait, 0, DefaultSeleniumWait),
        Or(maxRetries, 0, DefaultMaxRetries))
  }

  /** Re-initialising with an object's own settings changes nothing: the
      defaults are never falsy themselves. */
  lemma InitIdempotent(url: string, headers: Option<Headers>, tTimeout: Option<int>,
                       tSeleniumWait: Option<int>, maxRetries: Option<int>)
    ensures var w := Init(url, headers, tTimeout, tSeleniumWait, maxRetries);
            Init(w.url, Some(w.headers), Some(w.tTimeout), Some(w.tSeleniumWait), Some(w.maxRetries)) == w
  {
  }
}
