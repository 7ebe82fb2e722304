/** `scrape_all`: walk the result pages 1, 2, 3, ... until the site
    redirects to its home page or a page holds no product card, and collect
    the accepted records in page order, then card order. */
module Crawl {
  import opened Wrappers
  import opened Configuration
  import opened Product
  import opened Cache

  /** `BeautifulSoup(html, "html.parser").select("div.card.product")`: the
      product cards of a page, in document order. */
  type Soup = string -> seq<Card>

  /** `parse_product` with the configuration and the date of the run fixed. */
  function Parser(cfg: Config, date: string): Card -> Option<Laptop> {
    card => ParseProduct(cfg, card, date)
  }

  /** The records `parse` yields for `cards`, in card order: the inner loop
      of `scrape_all`, which keeps every record and skips every `None`. */
  function Accepted(parse: Card -> Option<Laptop>, cards: seq<Card>): (r: seq<Laptop>)
    ensures |r| <= |cards|
    decreases |cards|
  {
    if cards == [] then []
    else
      var init := Accepted(parse, cards[..|cards| - 1]);
      match parse(cards[|cards| - 1])
      case None => init
      case Some(l) => init + [l]
  }

  /** Every record accepted by `parse_product` passes the filters and
      carries the run's date. */
  lemma {:induction false} AcceptedAdmissible(cfg: Config, cards: seq<Card>, date: string)
    ensures forall l :: l in Accepted(Parser(cfg, date), cards) ==> Admissible(cfg, l) && l.date == date
    decreases |cards|
  {
    if cards != [] {
      AcceptedAdmissible(cfg, cards[..|cards| - 1], date);
    }
  }

  /** Every accepted record is what `parse` made of one of the cards. */
  lemma {:induction false} AcceptedComeFromCards(parse: Card -> Option<Laptop>, cards: seq<Card>, l: Laptop)
    requires l in Accepted(parse, cards)
    ensures exists c :: c in cards && parse(c) == Some(l)
    decreases |cards|
  {
    var init := cards[..|cards| - 1];
    if l in Accepted(parse, init) {
      AcceptedComeFromCards(parse, init, l);
      var c :| c in init && parse(c) == Some(l);
      assert c in cards;
    } else {
      assert parse(cards[|cards| - 1]) == Some(l);
    }
  }

  /** A card that `parse` accepts is kept. */
  lemma {:induction false} AcceptedKeepsEveryRecord(parse: Card -> Option<Laptop>, cards: seq<Card>, i: nat)
    requires i < |cards| && parse(cards[i]).Some?
    ensures parse(cards[i]).value in Accepted(parse, cards)
    decreases |cards|
  {
    if i < |cards| - 1 {
      var init := cards[..|cards| - 1];
      assert init[i] == cards[i];
      AcceptedKeepsEveryRecord(parse, init, i);
    }
  }

  /** Accepting cards page by page gives what accepting them all at once
      gives. */
  lemma {:induction false} AcceptedAppend(parse: Card -> Option<Laptop>, a: seq<Card>, b: seq<Card>)
    ensures Accepted(parse, a + b) == Accepted(parse, a) + Accepted(parse, b)
    decreases |b|
  {
    if b == [] {
      assert a + b == a;
    } else {
      var ab := a + b;
      assert ab[..|ab| - 1] == a + b[..|b| - 1];
      assert ab[|ab| - 1] == b[|b| - 1];
      AcceptedAppend(parse, a, b[..|b| - 1]);
    }
  }

  /** Every page the crawl may look at, and every cached page, lies below
      `limit`. */
  ghost predicate Bounded(store: Store, site: seq<Response>, limit: nat) {
    |site| < limit && forall k :: k in store ==> k < limit
  }

  ghost function KeyBound(keys: set<nat>): (b: nat)
    ensures forall k :: k in keys ==> k < b
    decreases keys
  {
    if keys == {} then 0
    else
      var k :| k in keys;
      var rest := KeyBound(keys - {k});
      assert forall j :: j in keys ==> j == k || j in keys - {k};
      if k < rest then rest else k + 1
  }

  /** A page number past the site and past every cached page: from there on
      every fetch is a redirect to the home page. */
  ghost function Horizon(store: Store, site: seq<Response>): (limit: nat)
    ensures Bounded(store, site, limit)
  {
    KeyBound(store.Keys) + |site| + 1
  }

  /** What a whole crawl leaves behind: the records, the cache, and the pages
      requested from the network, in order. */
  datatype Crawled = Crawled(records: seq<Laptop>, store: Store, requested: seq<nat>)

  /** The crawl from page `page` on, threading the cache from one fetch to
      the next as the loop does. `limit` only bounds the recursion; a page at
      or beyond it always ends the crawl. */
  function Crawl(cfg: Config, soup: Soup, site: seq<Response>, now: int, parse: Card -> Option<Laptop>,
                 store: Store, page: nat, limit: nat): (c: Crawled)
    requires Bounded(store, site, limit)
    decreases limit - page
  {
    var f := Fetch(cfg.baseUrl, store, site, now, page);
    var asked := if f.requested then [page] else [];
    if f.html.None? then Crawled([], f.store, asked)
    else
      var cards := soup(f.html.value);
      if cards == [] then Crawled([], f.store, asked)
      else
        assert page < limit;
        FetchWritesOnlyPage(cfg.baseUrl, store, site, now, page);
        var rest := Crawl(cfg, soup, site, now, parse, f.store, page + 1, limit);
        Crawled(Accepted(parse, cards) + rest.records, rest.store, asked + rest.requested)
  }

  /** The cards of page `p` as the crawl sees them, or `None` for an end
      signal: a redirect to the home page, or a page with no card. */
  function Outcome(cfg: Config, soup: Soup, site: seq<Response>, now: int, store: Store, p: nat)
    : (o: Option<seq<Card>>)
    ensures o.Some? ==> o.value != []
  {
    var f := Fetch(cfg.baseUrl, store, site, now, p);
    if f.html.None? then None
    else
      var cards := soup(f.html.value);
      if cards == [] then None else Some(cards)
  }

  /** The reference definition of the crawl's result: the accepted records
      of pages `page`, `page + 1`, ... up to the first end signal, each page
      judged against the cache as it was when the crawl began. */
  function Pages(cfg: Config, soup: Soup, site: seq<Response>, now: int, parse: Card -> Option<Laptop>,
                 store: Store, page: nat, limit: nat): seq<Laptop>
    requires Bounded(store, site, limit)
    decreases limit - page
  {
    match Outcome(cfg, soup, site, now, store, page)
    case None => []
    case Some(cards) =>
      assert page < limit;
      Accepted(parse, cards) + Pages(cfg, soup, site, now, parse, store, page + 1, limit)
  }

  /** Two caches that agree on every page from `page` on. */
  ghost predicate AgreeFrom(s: Store, t: Store, page: nat) {
    forall k :: page <= k ==> (k in s <==> k in t) && (k in s ==> s[k] == t[k])
  }

  /** Every record of the crawl is what `parse` made of some card. */
  lemma {:induction false} PagesComeFromCards(cfg: Config, soup: Soup, site: seq<Response>, now: int,
                                              parse: Card -> Option<Laptop>,
                                              store: Store, page: nat, limit: nat, l: Laptop)
    requires Bounded(store, site, limit)
    requires l in Pages(cfg, soup, site, now, parse, store, page, limit)
    ensures exists c :: parse(c) == Some(l)
    decreases limit - page
  {
    match Outcome(cfg, soup, site, now, store, page)
    case None =>
    case Some(cards) =>
      assert page < limit;
      if l in Accepted(parse, cards) {
        AcceptedComeFromCards(parse, cards, l);
      } else {
        PagesComeFromCards(cfg, soup, site, now, parse, store, page + 1, limit, l);
      }
  }

  /** Every record of the crawl passes the filters and carries the run's
      date. */
  lemma PagesAdmissible(cfg: Config, soup: Soup, site: seq<Response>, now: int, date: string,
                        store: Store, page: nat, limit: nat)
    requires Bounded(store, site, limit)
    ensures forall l :: l in Pages(cfg, soup, site, now, Parser(cfg, date), store, page, limit) ==>
              Admissible(cfg, l) && l.date == date
  {
    forall l | l in Pages(cfg, soup, site, now, Parser(cfg, date), store, page, limit)
      ensures Admissible(cfg, l) && l.date == date
    {
      PagesComeFromCards(cfg, soup, site, now, Parser(cfg, date), store, page, limit, l);
      var c :| Parser(cfg, date)(c) == Some(l);
      assert ParseProduct(cfg, c, date) == Some(l);
    }
  }

  /** A fetch reads and writes only the page it fetches. */
  lemma FetchIsLocal(baseUrl: string, store: Store, store0: Store, site: seq<Response>, now: int, page: nat)
    requires AgreeFrom(store, store0, page)
    ensures Fetch(baseUrl, store, site, now, page).html == Fetch(baseUrl, store0, site, now, page).html
    ensures AgreeFrom(Fetch(baseUrl, store, site, now, page).store, store0, page + 1)
  {
    var f := Fetch(baseUrl, store, site, now, page);
    FetchWritesOnlyPage(baseUrl, store, site, now, page);
    assert IsFresh(store, page, now) == IsFresh(store0, page, now);
    forall k | page + 1 <= k
      ensures (k in f.store <==> k in store0) && (k in f.store ==> f.store[k] == store0[k])
    {
      assert k in f.store - {page} <==> k in store - {page};
    }
  }

  /** The crawl from `page` on: nothing at an end signal, otherwise the
      page's records followed by the crawl from the next page, with the cache
      the fetch left behind. */
  lemma CrawlUnfolds(cfg: Config, soup: Soup, site: seq<Response>, now: int, parse: Card -> Option<Laptop>,
                     store: Store, page: nat, limit: nat)
    requires Bounded(store, site, limit)
    ensures var f := Fetch(cfg.baseUrl, store, site, now, page);
            match Outcome(cfg, soup, site, now, store, page)
            case None => Crawl(cfg, soup, site, now, parse, store, page, limit).records == []
            case Some(cards) =>
              && page < limit
              && Bounded(f.store, site, limit)
              && Crawl(cfg, soup, site, now, parse, store, page, limit).records
                 == Accepted(parse, cards) + Crawl(cfg, soup, site, now, parse, f.store, page + 1, limit).records
  {
    if Outcome(cfg, soup, site, now, store, page).Some? {
      assert page < limit;
      FetchWritesOnlyPage(cfg.baseUrl, store, site, now, page);
    }
  }

  /** Threading the cache through the crawl changes nothing about the pages
      still to come, since a fetch only writes the page it fetches. So the
      loop's result is the page-by-page concatenation `Pages`. */
  lemma {:induction false} CrawlIsPages(cfg: Config, soup: Soup, site: seq<Response>, now: int, parse: Card -> Option<Laptop>,
                                        store: Store, store0: Store, page: nat, limit: nat)
    requires Bounded(store, site, limit) && Bounded(store0, site, limit)
    requires AgreeFrom(store, store0, page)
    ensures Crawl(cfg, soup, site, now, parse, store, page, limit).records
         == Pages(cfg, soup, site, now, parse, store0, page, limit)
    decreases limit - page
  {
    FetchIsLocal(cfg.baseUrl, store, store0, site, now, page);
    assert Outcome(cfg, soup, site, now, store, page) == Outcome(cfg, soup, site, now, store0, page);
    CrawlUnfolds(cfg, soup, site, now, parse, store, page, limit);
    match Outcome(cfg, soup, site, now, store0, page)
    case None =>
    case Some(cards) =>
      var f := Fetch(cfg.baseUrl, store, site, now, page);
      CrawlIsPages(cfg, soup, site, now, parse, f.store, store0, page + 1, limit);
  }

  /** Page numbers in strictly ascending order, none below `low`. */
  predicate Ascending(r: seq<nat>, low: nat) {
    && (forall i :: 0 <= i < |r| ==> low <= r[i])
    && (forall i, j :: 0 <= i < j < |r| ==> r[i] < r[j])
  }

  lemma AscendingPrepend(r: seq<nat>, page: nat, asked: seq<nat>)
    requires Ascending(r, page + 1) && (asked == [] || asked == [page])
    ensures Ascending(asked + r, page)
  {
    assert forall i :: |asked| <= i < |asked + r| ==> (asked + r)[i] == r[i - |asked|];
  }

  /** The pages the crawl from `page` requests: this page if the fetch
      used the network, then, unless the page ended the crawl, those of the
      crawl from the next page. */
  lemma CrawlRequests(cfg: Config, soup: Soup, site: seq<Response>, now: int, parse: Card -> Option<Laptop>,
                      store: Store, page: nat, limit: nat)
    requires Bounded(store, site, limit)
    ensures var f := Fetch(cfg.baseUrl, store, site, now, page);
            var asked := if f.requested then [page] else [];
            match Outcome(cfg, soup, site, now, store, page)
            case None => Crawl(cfg, soup, site, now, parse, store, page, limit).requested == asked
            case Some(cards) =>
              && page < limit
              && Bounded(f.store, site, limit)
              && Crawl(cfg, soup, site, now, parse, store, page, limit).requested
                 == asked + Crawl(cfg, soup, site, now, parse, f.store, page + 1, limit).requested
  {
    if Outcome(cfg, soup, site, now, store, page).Some? {
      assert page < limit;
      FetchWritesOnlyPage(cfg.baseUrl, store, site, now, page);
    }
  }

  /** The crawl visits pages `page`, `page + 1`, ... in turn, so the pages
      it requests from the network come in strictly ascending order, none
      before `page`. */
  lemma {:induction false} CrawlRequestsAscend(cfg: Config, soup: Soup, site: seq<Response>, now: int,
                                               parse: Card -> Option<Laptop>,
                                               store: Store, page: nat, limit: nat)
    requires Bounded(store, site, limit)
    ensures Ascending(Crawl(cfg, soup, site, now, parse, store, page, limit).requested, page)
    decreases limit - page
  {
    CrawlRequests(cfg, soup, site, now, parse, store, page, limit);
    var f := Fetch(cfg.baseUrl, store, site, now, page);
    var asked := if f.requested then [page] else [];
    match Outcome(cfg, soup, site, now, store, page)
    case None =>
      AscendingPrepend([], page, asked);
      assert asked + [] == asked;
    case Some(cards) =>
      CrawlRequestsAscend(cfg, soup, site, now, parse, f.store, page + 1, limit);
      AscendingPrepend(Crawl(cfg, soup, site, now, parse, f.store, page + 1, limit).requested, page, asked);
  }

  /** Page `p` was downloaded: requested from the network and not answered
      by the home page. */
  predicate Downloaded(baseUrl: string, site: seq<Response>, requested: seq<nat>, p: nat) {
    p in requested && !RedirectedHome(baseUrl, Request(baseUrl, site, p).url)
  }

  /** The cache after writing, in turn, each requested page that did not
      redirect home, stamped with the time of the run. */
  function Written(baseUrl: string, site: seq<Response>, now: int, store: Store, requested: seq<nat>): (w: Store)
    ensures forall k :: k in w <==> k in store || Downloaded(baseUrl, site, requested, k)
    ensures forall k :: Downloaded(baseUrl, site, requested, k) ==> w[k] == CachedPage(Request(baseUrl, site, k).text, now)
    ensures forall k :: k in store && !Downloaded(baseUrl, site, requested, k) ==> w[k] == store[k]
    decreases |requested|
  {
    if requested == [] then store
    else
      var p := requested[0];
      var response := Request(baseUrl, site, p);
      var next := if RedirectedHome(baseUrl, response.url) then store else store[p := CachedPage(response.text, now)];
      assert forall k :: k in requested <==> k == p || k in requested[1..];
      Written(baseUrl, site, now, next, requested[1..])
  }

  /** A fetch that uses the network writes its page exactly when the site
      does not redirect home. */
  lemma FetchStore(baseUrl: string, store: Store, site: seq<Response>, now: int, page: nat)
    ensures var f := Fetch(baseUrl, store, site, now, page);
            f.store == Written(baseUrl, site, now, store, if f.requested then [page] else [])
  {
    var f := Fetch(baseUrl, store, site, now, page);
    if f.requested {
      assert [page][1..] == [];
    }
  }

  /** Writing the requests of two runs one after the other. */
  lemma {:induction false} WrittenAppend(baseUrl: string, site: seq<Response>, now: int, store: Store,
                                         a: seq<nat>, b: seq<nat>)
    ensures Written(baseUrl, site, now, store, a + b)
         == Written(baseUrl, site, now, Written(baseUrl, site, now, store, a), b)
    decreases |a|
  {
    if a == [] {
      assert a + b == b;
    } else {
      var p := a[0];
      var response := Request(baseUrl, site, p);
      var next := if RedirectedHome(baseUrl, response.url) then store else store[p := CachedPage(response.text, now)];
      assert (a + b)[0] == p && (a + b)[1..] == a[1..] + b;
      WrittenAppend(baseUrl, site, now, next, a[1..], b);
    }
  }

  /** The cache a crawl leaves behind is the cache it started from with each
      page it downloaded written in. */
  lemma {:induction false} CrawlStoreIsWritten(cfg: Config, soup: Soup, site: seq<Response>, now: int,
                                               parse: Card -> Option<Laptop>,
                                               store: Store, page: nat, limit: nat)
    requires Bounded(store, site, limit)
    ensures var c := Crawl(cfg, soup, site, now, parse, store, page, limit);
            c.store == Written(cfg.baseUrl, site, now, store, c.requested)
    decreases limit - page
  {
    var c := Crawl(cfg, soup, site, now, parse, store, page, limit);
    AppendNil(c.records);
    AppendNil(c.requested);
    CrawlTurn(cfg, soup, site, now, parse, c, [], [], store, page, limit);
    var f := Fetch(cfg.baseUrl, store, site, now, page);
    var asked := if f.requested then [page] else [];
    assert [] + asked == asked;
    FetchStore(cfg.baseUrl, store, site, now, page);
    match Outcome(cfg, soup, site, now, store, page)
    case None =>
    case Some(cards) =>
      CrawlStoreIsWritten(cfg, soup, site, now, parse, f.store, page + 1, limit);
      WrittenAppend(cfg.baseUrl, site, now, store, asked,
                    Crawl(cfg, soup, site, now, parse, f.store, page + 1, limit).requested);
  }

  /** A first run, on an empty cache, leaves one cache file per downloaded
      page and no other, each holding the text the site answered. */
  lemma FirstRunCachesDownloads(cfg: Config, soup: Soup, site: seq<Response>, now: int,
                                parse: Card -> Option<Laptop>)
    ensures var c := Crawl(cfg, soup, site, now, parse, map[], 1, Horizon(map[], site));
            && (forall p :: p in c.store <==> Downloaded(cfg.baseUrl, site, c.requested, p))
            && (forall p :: p in c.store ==> c.store[p] == CachedPage(Request(cfg.baseUrl, site, p).text, now))
  {
    CrawlStoreIsWritten(cfg, soup, site, now, parse, map[], 1, Horizon(map[], site));
  }

  /** What a whole crawl from page 1 gathers: the records of `Pages`, every
      one of them admissible and dated with the run's date. */
  lemma CrawlGathers(cfg: Config, soup: Soup, site: seq<Response>, now: int, date: string, store: Store)
    ensures var records := Crawl(cfg, soup, site, now, Parser(cfg, date), store, 1, Horizon(store, site)).records;
            && records == Pages(cfg, soup, site, now, Parser(cfg, date), store, 1, Horizon(store, site))
            && forall l :: l in records ==> Admissible(cfg, l) && l.date == date
  {
    var limit := Horizon(store, site);
    CrawlIsPages(cfg, soup, site, now, Parser(cfg, date), store, store, 1, limit);
    PagesAdmissible(cfg, soup, site, now, date, store, 1, limit);
  }

  /** One turn of the crawl loop, for a crawl that has so far gathered
      `done` and requested `before`: an end signal completes the crawl with
      the cache the fetch left behind; a page with cards adds their records
      and goes on from the next page. */
  lemma {:induction false} CrawlTurn(cfg: Config, soup: Soup, site: seq<Response>, now: int,
                                     parse: Card -> Option<Laptop>, whole: Crawled,
                                     done: seq<Laptop>, before: seq<nat>, store: Store, page: nat, limit: nat)
    requires Bounded(store, site, limit)
    requires var c := Crawl(cfg, soup, site, now, parse, store, page, limit);
             whole == Crawled(done + c.records, c.store, before + c.requested)
    ensures var f := Fetch(cfg.baseUrl, store, site, now, page);
            var logged := before + if f.requested then [page] else [];
            match Outcome(cfg, soup, site, now, store, page)
            case None => whole == Crawled(done, f.store, logged)
            case Some(cards) =>
              && page < limit
              && Bounded(f.store, site, limit)
              && var c := Crawl(cfg, soup, site, now, parse, f.store, page + 1, limit);
                 whole == Crawled((done + Accepted(parse, cards)) + c.records, c.store, logged + c.requested)
  {
    var f := Fetch(cfg.baseUrl, store, site, now, page);
    var asked := if f.requested then [page] else [];
    match Outcome(cfg, soup, site, now, store, page)
    case None =>
      assert done + [] == done;
    case Some(cards) =>
      assert page < limit;
      FetchWritesOnlyPage(cfg.baseUrl, store, site, now, page);
      var c := Crawl(cfg, soup, site, now, parse, f.store, page + 1, limit);
      assert done + (Accepted(parse, cards) + c.records) == (done + Accepted(parse, cards)) + c.records;
      assert before + (asked + c.requested) == (before + asked) + c.requested;
  }

  lemma AppendAssociates<T>(a: seq<T>, b: seq<T>, c: seq<T>)
    ensures (a + b) + c == a + (b + c)
  {
  }

  lemma AppendNil<T>(a: seq<T>)
    ensures a + [] == a && [] + a == a
  {
  }

  /** The inner loop of `scrape_all`: `parse_product` on every card of a
      page, keeping the records in card order. */
  method AcceptCards(cfg: Config, cards: seq<Card>, date: string) returns (kept: seq<Laptop>)
    ensures kept == Accepted(Parser(cfg, date), cards)
  {
    kept := [];
    for i := 0 to |cards|
      invariant kept == Accepted(Parser(cfg, date), cards[..i])
    {
      var product := ParseProduct(cfg, cards[i], date);
      assert cards[..i + 1][..i] == cards[..i];
      if product.Some? {
        kept := kept + [product.value];
      }
    }
    assert cards[..|cards|] == cards;
  }

  /** `scrape_all`, with the site, the card selector, the clock reading and
      the date of the run as parameters. */
  method ScrapeAll(cfg: Config, cache: PageCache, site: seq<Response>, soup: Soup, now: int, date: string)
    returns (results: seq<Laptop>)
    modifies cache
    ensures var c := Crawl(cfg, soup, site, now, Parser(cfg, date), old(cache.store), 1, Horizon(old(cache.store), site));
            && results == c.records
            && cache.store == c.store
            && cache.requests == old(cache.requests) + c.requested
    ensures results == Pages(cfg, soup, site, now, Parser(cfg, date), old(cache.store), 1, Horizon(old(cache.store), site))
    ensures forall l :: l in results ==> Admissible(cfg, l) && l.date == date
  {
    ghost var parse := Parser(cfg, date);
    ghost var store0 := cache.store;
    ghost var limit := Horizon(store0, site);
    ghost var log0 := cache.requests;
    ghost var whole := Crawl(cfg, soup, site, now, parse, store0, 1, limit);
    ghost var logged: seq<nat> := [];
    var page: nat := 1;
    results := [];
    AppendNil(whole.records);
    AppendNil(whole.requested);
    AppendNil(log0);
    while true
      invariant Bounded(cache.store, site, limit)
      invariant cache.requests == log0 + logged
      invariant var rest := Crawl(cfg, soup, site, now, parse, cache.store, page, limit);
                whole == Crawled(results + rest.records, rest.store, logged + rest.requested)
      decreases limit - page
    {
      ghost var f := Fetch(cfg.baseUrl, cache.store, site, now, page);
      ghost var asked := if f.requested then [page] else [];
      CrawlTurn(cfg, soup, site, now, parse, whole, results, logged, cache.store, page, limit);
      AppendAssociates(log0, logged, asked);
      var html := cache.FetchPage(cfg.baseUrl, site, now, page);
      logged := logged + asked;
      if html.None? || soup(html.value) == [] {
        break;
      }
      var kept := AcceptCards(cfg, soup(html.value), date);
      results := results + kept;
      page := page + 1;
    }
    CrawlGathers(cfg, soup, site, now, date, store0);
  }
}
