/** `fetch_page`: one results page, served from the on-disk cache while the
    cached copy is under an hour old, otherwise downloaded, recognised as the
    end of the results when the site redirects to its home page, and
    otherwise written to the cache and returned. */
module Cache {
  import opened Wrappers
  import opened Text

  /** The file `page_<n>.html`: its text and its modification time. Times
      are integers in microseconds, the resolution of Python's `datetime`. */
  datatype CachedPage = CachedPage(text: string, mtime: int)

  /** The cache directory, keyed by page number. */
  type Store = map<nat, CachedPage>

  /** What `requests.get` returns, after following redirects: the final URL
      and the body. */
  datatype Response = Response(url: string, text: string)

  /** One hour, in microseconds. */
  const FreshnessWindow: int := 3_600_000_000

  /** A cached copy exists and is strictly younger than one hour. A
      modification time in the future counts as fresh, as in the source. */
  predicate IsFresh(store: Store, n: nat, now: int) {
    n in store && now - store[n].mtime < FreshnessWindow
  }

  /** The response landed on the home page: the URLs agree once leading and
      trailing slashes are stripped from both. */
  predicate RedirectedHome(baseUrl: string, url: string) {
    Strip(url, {'/'}) == Strip(baseUrl, {'/'})
  }

  /** The site as the crawler sees it: page `n` of the results (numbered from
      1) is `site[n - 1]`; any other page number redirects to the home page. */
  function Request(baseUrl: string, site: seq<Response>, n: nat): (r: Response)
    ensures !(1 <= n <= |site|) ==> RedirectedHome(baseUrl, r.url)
  {
    if 1 <= n <= |site| then site[n - 1] else Response(baseUrl, "")
  }

  /** Reading a cache file back in text mode: Python's universal newlines
      turn every "\r\n" and every lone "\r" into "\n". (Writing on POSIX
      stores the text as it is.) */
  function ReadBack(t: string): (r: string)
    ensures '\r' !in r
    ensures '\r' !in t ==> r == t
    ensures |r| <= |t|
    decreases |t|
  {
    if t == [] then []
    else if t[0] == '\r' then
      if |t| >= 2 && t[1] == '\n' then ['\n'] + ReadBack(t[2..]) else ['\n'] + ReadBack(t[1..])
    else [t[0]] + ReadBack(t[1..])
  }

  /** Every line break, whatever its convention, becomes one "\n", and every
      other character is kept in order. */
  lemma {:induction false} ReadBackLineBreaks(a: string, b: string)
    requires '\r' !in a
    ensures ReadBack(a + "\r\n" + b) == a + "\n" + ReadBack(b)
    ensures b == [] || b[0] != '\n' ==> ReadBack(a + "\r" + b) == a + "\n" + ReadBack(b)
  {
    if a == [] {
      assert (a + "\r\n" + b)[2..] == b;
      assert (a + "\r" + b)[1..] == b;
    } else {
      assert (a + "\r\n" + b)[1..] == a[1..] + "\r\n" + b;
      assert (a + "\r" + b)[1..] == a[1..] + "\r" + b;
      ReadBackLineBreaks(a[1..], b);
    }
  }

  /** A page whose one line break is a CRLF, such as "<li>a\r\nb</li>", comes
      back from the cache with a bare "\n" in its place ("<li>a\nb</li>"). */
  lemma CrLfLineReadsBackWithLf(a: string, b: string)
    requires '\r' !in a && '\r' !in b
    ensures ReadBack(a + "\r\n" + b) == a + "\n" + b
  {
    ReadBackLineBreaks(a, b);
  }

  /** The outcome of one `fetch_page(n)`: the page text or `None` at the end
      of the results, the cache afterwards, and whether the network was used. */
  datatype Fetched = Fetched(html: Option<string>, store: Store, requested: bool)

  /** `fetch_page(n)` at time `now`. */
  function Fetch(baseUrl: string, store: Store, site: seq<Response>, now: int, n: nat): (f: Fetched)
    ensures !f.requested <==> IsFresh(store, n, now)
    ensures IsFresh(store, n, now) ==> f.html == Some(ReadBack(store[n].text))
    ensures f.html.Some? && f.requested ==> n in f.store && f.store[n].text == f.html.value
    ensures f.html.None? ==> f.store == store
    ensures !f.requested ==> f.store == store
  {
    if IsFresh(store, n, now) then Fetched(Some(ReadBack(store[n].text)), store, false)
    else
      var response := Request(baseUrl, site, n);
      if RedirectedHome(baseUrl, response.url) then Fetched(None, store, true)
      else Fetched(Some(response.text), store[n := CachedPage(response.text, now)], true)
  }

  /** A fetch writes no cache entry but its own page's. */
  lemma FetchWritesOnlyPage(baseUrl: string, store: Store, site: seq<Response>, now: int, n: nat)
    ensures var f := Fetch(baseUrl, store, site, now, n);
            && f.store.Keys <= store.Keys + {n}
            && forall k :: k in store && k != n ==> k in f.store && f.store[k] == store[k]
  {
  }

  /** A cached copy under an hour old is returned as text mode reads it
      back, with no network request and no write; a copy without a carriage
      return comes back exactly as it was written. */
  lemma CacheHit(baseUrl: string, store: Store, site: seq<Response>, now: int, n: nat)
    requires n in store && now - store[n].mtime < FreshnessWindow
    ensures Fetch(baseUrl, store, site, now, n) == Fetched(Some(ReadBack(store[n].text)), store, false)
    ensures '\r' !in store[n].text ==> Fetch(baseUrl, store, site, now, n).html == Some(store[n].text)
  {
  }

  /** A page that was downloaded is served again without a network request
      to any fetch within the next hour, whatever the site now answers: the
      downloaded text with its line breaks read back as "\n", which is the
      downloaded text itself when it holds no carriage return. */
  lemma DownloadedPageIsServedFromCache(
    baseUrl: string, store: Store, site: seq<Response>, now: int, n: nat,
    site': seq<Response>, later: int)
    requires Fetch(baseUrl, store, site, now, n).requested
    requires Fetch(baseUrl, store, site, now, n).html.Some?
    requires later - now < FreshnessWindow
    ensures var f := Fetch(baseUrl, store, site, now, n);
            && Fetch(baseUrl, f.store, site', later, n) == Fetched(Some(ReadBack(f.html.value)), f.store, false)
            && ('\r' !in f.html.value ==> Fetch(baseUrl, f.store, site', later, n).html == f.html)
  {
  }

  /** A stale or missing page that the site answers with its home page ends
      the results and leaves the cache as it was. */
  lemma RedirectEndsWithoutWrite(baseUrl: string, store: Store, site: seq<Response>, now: int, n: nat)
    requires !IsFresh(store, n, now) && RedirectedHome(baseUrl, Request(baseUrl, site, n).url)
    ensures Fetch(baseUrl, store, site, now, n) == Fetched(None, store, true)
  {
  }

  /** Otherwise the downloaded text is what is returned and what is cached,
      stamped with the current time. */
  lemma DownloadIsCached(baseUrl: string, store: Store, site: seq<Response>, now: int, n: nat)
    requires !IsFresh(store, n, now) && !RedirectedHome(baseUrl, Request(baseUrl, site, n).url)
    ensures var text := Request(baseUrl, site, n).text;
            Fetch(baseUrl, store, site, now, n) == Fetched(Some(text), store[n := CachedPage(text, now)], true)
  {
  }

  /** The cache directory and a log of the pages requested from the network
      (the log is ghost: it records the I/O the model abstracts). */
  class PageCache {
    var store: Store
    ghost var requests: seq<nat>

    constructor (store: Store)
      ensures this.store == store && requests == []
    {
      this.store := store;
      requests := [];
    }

    /** `fetch_page(n)`. */
    method FetchPage(baseUrl: string, site: seq<Response>, now: int, n: nat) returns (html: Option<string>)
      modifies this
      ensures var f := Fetch(baseUrl, old(store), site, now, n);
              && html == f.html
              && store == f.store
              && requests == old(requests) + (if f.requested then [n] else [])
    {
      if n in store && now - store[n].mtime < FreshnessWindow {
        return Some(ReadBack(store[n].text));
      }
      var response := Request(baseUrl, site, n);
      requests := requests + [n];
      if Strip(response.url, {'/'}) == Strip(baseUrl, {'/'}) {
        return None;
      }
      store := store[n := CachedPage(response.text, now)];
      html := Some(response.text);
    }
  }
}
