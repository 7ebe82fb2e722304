/** `parse_product`: one listing card of a results page becomes a laptop
    record or nothing. The HTML queries are already answered: a card is the
    name link (with its `title` and `href` attributes, when present), the
    texts of the specification list items and the text of the price button. */
module Product {
  import opened Wrappers
  import opened Text
  import opened Configuration
  import opened Price

  /** The `div.p-y-10 h3 a` link; an attribute that is absent is `None`. */
  datatype NameTag = NameTag(title: Option<string>, href: Option<string>)

  /** One `div.card.product`: its name link, the stripped texts of its
      `ul.specs li` items in document order, and the stripped text of its
      `a.btn-success.price` button. */
  datatype Card = Card(nameTag: Option<NameTag>, specItems: seq<string>, priceTag: Option<string>)

  /** The record written for an accepted card, one field per CSV column. */
  datatype Laptop = Laptop(
    name: string, link: string,
    screen: string, resolution: string, os: string, cpu: string, gpu: string,
    ram: string, storage: string,
    price: real, date: string)

  /** The number of specification items a card needs: screen, resolution,
      OS, CPU, GPU, RAM and storage, in that order. */
  const SpecCount: nat := 7

  /** A specification item with each non-breaking space made an ordinary
      space and every other character kept in place. */
  function SpecText(item: string): (r: string)
    ensures |r| == |item|
    ensures forall j :: 0 <= j < |item| ==> r[j] == if item[j] == '\U{A0}' then ' ' else item[j]
  {
    ReplaceCharByChar(item, '\U{A0}', ' ');
    Replace(item, "\U{A0}", " ")
  }

  /** The list comprehension over the specification items. */
  function SpecTexts(items: seq<string>): (r: seq<string>)
    ensures |r| == |items|
    ensures forall i :: 0 <= i < |items| ==> r[i] == SpecText(items[i])
  {
    seq(|items|, i requires 0 <= i < |items| => SpecText(items[i]))
  }

  /** The record's filters: the GPU and CPU targets occur in the matching
      fields and the price does not exceed the ceiling. An empty target
      occurs in every text, so it filters nothing. */
  predicate Admissible(cfg: Config, l: Laptop) {
    && Contains(l.gpu, cfg.targetGpu)
    && Contains(l.cpu, cfg.targetCpu)
    && l.price <= cfg.maxPrice
  }

  /** The record's text fields are taken from the card: the stripped title,
      the base URL without trailing slashes followed by the stripped href,
      and the seven specification texts by position. */
  predicate FromCard(baseUrl: string, card: Card, l: Laptop) {
    && card.nameTag.Some?
    && card.nameTag.value.title.Some? && card.nameTag.value.href.Some?
    && l.name == Strip(card.nameTag.value.title.value, Whitespace)
    && l.link == RStrip(baseUrl, {'/'}) + Strip(card.nameTag.value.href.value, Whitespace)
    && |card.specItems| >= SpecCount
    && l.screen == SpecText(card.specItems[0])
    && l.resolution == SpecText(card.specItems[1])
    && l.os == SpecText(card.specItems[2])
    && l.cpu == SpecText(card.specItems[3])
    && l.gpu == SpecText(card.specItems[4])
    && l.ram == SpecText(card.specItems[5])
    && l.storage == SpecText(card.specItems[6])
    && card.priceTag.Some?
    && ParseFloat(CleanPrice(card.priceTag.value)) == Some(l.price)
  }

  /** `parse_product`. Each early `return None` is a `None` here; so is every
      exception the source catches: reading `.strip()` of an absent `title`
      or `href`, and `float()` on a price text that is not a number. The
      date is the day of the run, passed in. */
  function ParseProduct(cfg: Config, card: Card, date: string): (r: Option<Laptop>)
    ensures card.nameTag.None? ==> r.None?
    ensures |card.specItems| < SpecCount ==> r.None?
    ensures card.priceTag.None? ==> r.None?
    ensures r.Some? ==> FromCard(cfg.baseUrl, card, r.value) && r.value.date == date
    ensures r.Some? ==> Admissible(cfg, r.value)
  {
    match card.nameTag
    case None => None
    case Some(tag) =>
      if tag.title.None? || tag.href.None? then None
      else
        var name := Strip(tag.title.value, Whitespace);
        var link := RStrip(cfg.baseUrl, {'/'}) + Strip(tag.href.value, Whitespace);
        var specs := SpecTexts(card.specItems);
        if |specs| < SpecCount then None
        else
          var cpu, gpu := specs[3], specs[4];
          if cfg.targetGpu != [] && !Contains(gpu, cfg.targetGpu) then None
          else if cfg.targetCpu != [] && !Contains(cpu, cfg.targetCpu) then None
          else
            match card.priceTag
            case None => None
            case Some(text) =>
              match ParseFloat(CleanPrice(text))
              case None => None
              case Some(price) =>
                if price > cfg.maxPrice then None
                else
                  Some(Laptop(name, link, specs[0], specs[1], specs[2], cpu, gpu,
                              specs[5], specs[6], price, date))
  }

  /** Extraction alone, with no filter: the record a well-formed card
      describes, whatever its GPU, CPU and price. */
  function Candidate(baseUrl: string, card: Card, date: string): (r: Option<Laptop>)
    ensures r.Some? ==> FromCard(baseUrl, card, r.value) && r.value.date == date
  {
    if card.nameTag.None? || card.nameTag.value.title.None? || card.nameTag.value.href.None?
       || |card.specItems| < SpecCount || card.priceTag.None? then None
    else
      var tag := card.nameTag.value;
      match ParseFloat(CleanPrice(card.priceTag.value))
      case None => None
      case Some(price) =>
        Some(Laptop(Strip(tag.title.value, Whitespace),
                    RStrip(baseUrl, {'/'}) + Strip(tag.href.value, Whitespace),
                    SpecText(card.specItems[0]), SpecText(card.specItems[1]),
                    SpecText(card.specItems[2]), SpecText(card.specItems[3]),
                    SpecText(card.specItems[4]), SpecText(card.specItems[5]),
                    SpecText(card.specItems[6]), price, date))
  }

  /** The card determines its record: any record drawn from the card as
      `FromCard` says is the one `Candidate` returns. */
  lemma CandidateIsDetermined(baseUrl: string, card: Card, date: string, l: Laptop)
    requires FromCard(baseUrl, card, l) && l.date == date
    ensures Candidate(baseUrl, card, date) == Some(l)
  {
  }

  /** The early returns of `parse_product` add up to extraction followed by
      the filters: a card is accepted exactly when it is well formed and its
      record passes every filter, whatever order the checks run in. */
  lemma ParseIsExtractThenFilter(cfg: Config, card: Card, date: string)
    ensures ParseProduct(cfg, card, date)
         == (match Candidate(cfg.baseUrl, card, date)
             case Some(l) => if Admissible(cfg, l) then Some(l) else None
             case None => None)
  {
  }

  /** The price ceiling is inclusive: a card otherwise accepted is accepted
      at exactly the maximum price and rejected one step above it. */
  lemma PriceCeilingIsInclusive(cfg: Config, card: Card, date: string)
    requires Candidate(cfg.baseUrl, card, date).Some?
    requires Contains(Candidate(cfg.baseUrl, card, date).value.gpu, cfg.targetGpu)
    requires Contains(Candidate(cfg.baseUrl, card, date).value.cpu, cfg.targetCpu)
    ensures Candidate(cfg.baseUrl, card, date).value.price == cfg.maxPrice
            ==> ParseProduct(cfg, card, date).Some?
    ensures Candidate(cfg.baseUrl, card, date).value.price > cfg.maxPrice
            ==> ParseProduct(cfg, card, date).None?
  {
    ParseIsExtractThenFilter(cfg, card, date);
  }

  /** Switching the GPU filter off never loses a card: whatever is accepted
      with a GPU target is accepted, unchanged, without one. */
  lemma GpuFilterOnlyRemoves(cfg: Config, card: Card, date: string)
    requires ParseProduct(cfg, card, date).Some?
    ensures ParseProduct(cfg.(targetGpu := ""), card, date) == ParseProduct(cfg, card, date)
  {
    ParseIsExtractThenFilter(cfg, card, date);
    ParseIsExtractThenFilter(cfg.(targetGpu := ""), card, date);
  }

  /** A card as the site shows it: name link, seven specification items
      and a mangled euro price "999,00 â‚¬" at the ceiling of the shipped
      configuration. It is accepted with price 999.00. */
  lemma ShippedConfigAcceptsMojibakePrice(title: string, href: string, specs: seq<string>, date: string)
    requires |specs| == SpecCount
    ensures ParseProduct(Shipped, Card(Some(NameTag(Some(title), Some(href))), specs, Some(EuroText(999, 0))), date)
         == Some(Laptop(Strip(title, Whitespace), Strip(href, Whitespace),
                        SpecText(specs[0]), SpecText(specs[1]), SpecText(specs[2]),
                        SpecText(specs[3]), SpecText(specs[4]), SpecText(specs[5]),
                        SpecText(specs[6]), 999.0, date))
  {
    var card := Card(Some(NameTag(Some(title), Some(href))), specs, Some(EuroText(999, 0)));
    assert ParseFloat(CleanPrice(EuroText(999, 0))) == Some(999.0) by {
      EuroTextRoundTrip(999, 0);
      Hundredths(999, 0);
    }
    assert RStrip(Shipped.baseUrl, {'/'}) == "";
    var l := Laptop(Strip(title, Whitespace), Strip(href, Whitespace),
                    SpecText(specs[0]), SpecText(specs[1]), SpecText(specs[2]),
                    SpecText(specs[3]), SpecText(specs[4]), SpecText(specs[5]),
                    SpecText(specs[6]), 999.0, date);
    assert FromCard(Shipped.baseUrl, card, l);
    CandidateIsDetermined(Shipped.baseUrl, card, date, l);
    ParseIsExtractThenFilter(Shipped, card, date);
  }

  /** The same card priced with a correctly decoded euro sign, "999,00 €",
      is dropped: the cleaning leaves the sign and `float()` fails. */
  lemma RealEuroSignDropsCard(cfg: Config, title: string, href: string, specs: seq<string>, date: string)
    ensures ParseProduct(cfg, Card(Some(NameTag(Some(title), Some(href))), specs,
                                   Some(Show(999) + ",00 " + [EuroSign])), date).None?
  {
    RealEuroSignRejected(Show(999) + ",00 " + [EuroSign]);
  }

  /** A card with no name link, or too few specification items, yields
      nothing, whatever else it holds. */
  lemma MalformedCardDropped(cfg: Config, card: Card, date: string)
    requires card.nameTag.None? || |card.specItems| < SpecCount
             || card.nameTag.value.title.None? || card.nameTag.value.href.None?
    ensures ParseProduct(cfg, card, date).None?
  {
  }
}
