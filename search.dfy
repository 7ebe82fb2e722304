/** The script's entry point: crawl every results page, then append what
    was found to the CSV file. */
module Search {
  import opened Configuration
  import opened Product
  import opened Cache
  import opened Crawl
  import opened Csv

  /** One run of the script at clock reading `now` on day `date`. */
  method RunSearch(cfg: Config, cache: PageCache, file: CsvFile, site: seq<Response>, soup: Soup,
                   now: int, date: string)
    returns (laptops: seq<Laptop>)
    modifies cache, file
    ensures var c := Crawl.Crawl(cfg, soup, site, now, Parser(cfg, date), old(cache.store), 1,
                                 Horizon(old(cache.store), site));
            && laptops == c.records
            && cache.store == c.store
            && cache.requests == old(cache.requests) + c.requested
    ensures laptops == Pages(cfg, soup, site, now, Parser(cfg, date), old(cache.store), 1,
                             Horizon(old(cache.store), site))
    ensures forall l :: l in laptops ==> Admissible(cfg, l) && l.date == date
    ensures (file.present, file.rows) == Saved(old(file.present), old(file.rows), laptops)
    ensures Records(file.rows) == Records(old(file.rows)) + laptops
  {
    laptops := ScrapeAll(cfg, cache, site, soup, now, date);
    file.SaveCsv(laptops);
    SavedReadsBack(old(file.present), old(file.rows), laptops);
  }
}
