# laptop-search, modelled in Dafny

`laptop-search.py` crawls the result pages of a laptop shop. It fetches page 1, 2, 3, … in turn and keeps a one-hour HTML cache on disk. When the site redirects to its home page, or serves a page with no product card, the crawl stops.

For each product card it:
- reads the name link and the seven specification items;
- applies the optional GPU and CPU substring filters;
- cleans the price text and parses it as a number;
- keeps the card when the price is at most the ceiling.

The records it keeps, dated with the day of the run, are appended to `laptops.csv`. The header is written only when the file is new.

The model has one module per piece of the script:

| module (file) | models |
|---|---|
| `Text` (text.dfy) | the Python `str` operations the script uses: `strip`, `rstrip`, `replace`, `in` |
| `Configuration` (configuration.dfy) | the configuration globals (`BASE_URL`, `TARGET_GPU`, `TARGET_CPU`, `MAX_PRICE`) as a `Config` value; `Shipped` is the configuration as shipped |
| `Price` (price.dfy) | the three substitutions on the price text, and `float()` on plain decimal notation |
| `Product` (product.dfy) | `parse_product` as a function from a card to an optional `Laptop` record |
| `Cache` (cache.dfy) | `fetch_page`: the `Fetch` function, and the class `PageCache` whose `FetchPage` method updates the cache directory in place |
| `Crawl` (crawl.dfy) | `scrape_all`: the `ScrapeAll` loop, proved against the `Crawl` function and the reference definition `Pages` |
| `Csv` (csv.dfy) | `save_csv`: the `SaveCsv` method on the class `CsvFile`, proved against the `Saved` function |
| `Search` (search.dfy) | the `__main__` block |

The outside world becomes parameters:
- The cache directory is a map from page number to (text, modification time). Times are integer microseconds, and one clock reading `now` serves the whole run.
- The site is a finite sequence of responses, each a final URL and a body. Page `n` is `site[n - 1]`. Any page number outside the sequence redirects to the home page.
- BeautifulSoup's card selection is a function `soup` from a page text to its cards.
- A card is already split into its name link (with optional `title` and `href`), its specification texts and its price text.
- The date of the run is an opaque string.

How the price text is handled:
- The code removes only the mis-decoded euro sign "â‚¬" (the UTF-8 bytes of € read as cp1252).
- A price written with a correctly decoded "€" therefore keeps the sign, `float()` fails, and the card is dropped.
- The model follows the code here. `RealEuroSignDropsCard` proves the drop, and `ShippedConfigAcceptsMojibakePrice` proves that the mangled form "999,00 â‚¬" is accepted as 999.00.

Removing the mis-decoded sign is a single left-to-right pass, so the cleaned text can still contain one (`CleanPriceCanLeaveMojibake`). Such a text never parses (`MojibakeUnparseable`), so a left-over mis-decoded sign never gets into an accepted price. Other misreadings remain, in the source and in the model alike: "1.234 â‚¬", with a thousands dot and no decimal part, is cleaned to "1.234" and accepted as 1.234.

## Model

| member | source | states |
|---|---|---|
| Text.Contains | laptop-search.py:58-60 | Python's `sub in s`: a text can only contain a piece no longer than itself, and the empty text is contained in every text |
| Text.LStrip | laptop-search.py:50-51 | `lstrip(chars)` yields a text no longer than the input that is empty or does not start with a character of `chars`, and whose last character is the input's |
| Text.LStripIsSuffix | laptop-search.py:50-51 | `lstrip(chars)` returns the suffix of the text from some position `k` on, every character before `k` being in `chars` |
| Text.RStripIsPrefix | laptop-search.py:51 | `rstrip(chars)` returns the prefix of the text up to some position `k`, every character from `k` on being in `chars` |
| Text.StripIsSlice | laptop-search.py:35 | `strip(chars)` returns the piece of the text between positions `i` and `j`, every character before `i` and from `j` on being in `chars` |
| Text.RStrip | laptop-search.py:51 | `rstrip(chars)` (used on `BASE_URL`) yields a text no longer than the input that is empty or does not end with a character of `chars` |
| Text.Strip | laptop-search.py:35 | `strip(chars)` yields a text that is empty or neither starts nor ends with a character of `chars` |
| Text.StripKeepsOthers | laptop-search.py:50-51 | stripping removes only characters of `chars`: every other character survives, and no character is added |
| Text.LStripKeepsOthers | laptop-search.py:50-51 | the same for `lstrip`, one character at a time |
| Text.RStripKeepsOthers | laptop-search.py:51 | the same for `rstrip`, one character at a time |
| Text.StripUnchanged | laptop-search.py:50-51 | a text whose two ends are not stripped characters is returned unchanged |
| Text.Replace | laptop-search.py:68 | `str.replace`, a left-to-right pass without overlaps; a replacement as long as the pattern keeps the length of the text |
| Text.ReplaceCharByChar | laptop-search.py:53 | replacing one character by another keeps the length and changes exactly the positions holding that character |
| Text.ReplaceKeepsAbsent | laptop-search.py:68 | `replace` brings in no character that neither the text nor the replacement holds |
| Text.ReplaceWithoutOccurrence | laptop-search.py:68 | `replace` leaves a text without an occurrence of the pattern unchanged |
| Text.ReplaceIntroducesOnlyRep | laptop-search.py:68 | every character of the result of `replace` comes from the text or from the replacement |
| Text.ReplaceKeepsOthers | laptop-search.py:68 | a character of the text that is not in the pattern survives `replace` |
| Text.ReplaceRemovesChar | laptop-search.py:53 | replacing a single character by a text that does not hold it leaves no occurrence of it |
| Text.ReplaceSkipsPrefix | laptop-search.py:68 | a prefix holding no first character of the pattern is copied through `replace` untouched |
| Text.ReplaceAbsent | laptop-search.py:68 | a text holding no first character of the pattern is returned unchanged by `replace` |
| Price.CleanPrice | laptop-search.py:68 | the three substitutions; the cleaned text holds no comma and no space |
| Price.CleanPriceCharacters | laptop-search.py:68 | each character of the cleaned text is a dot or comes from the price text |
| Price.CleanPriceCanLeaveMojibake | laptop-search.py:68 | the single-pass removal can join the neighbours of a removed "â‚¬" into a new one, so the cleaned text of "ââ‚¬‚¬" still holds "â‚¬" |
| Price.MojibakeUnparseable | laptop-search.py:68-69 | a text holding "â‚¬" makes the modelled `float()` fail, so a leftover mis-decoded sign drops the card |
| Price.ParseUnsigned | laptop-search.py:69 | a successful parse of an unsigned numeral means the text is only digits and dots, and the value is non-negative |
| Price.ParseFloat | laptop-search.py:69 | `float()` succeeds only on a text whose stripped form consists of digits, dots and signs |
| Price.UnparseableCharacter | laptop-search.py:69 | the modelled `float()` fails on a text holding a character that is neither a numeral character nor whitespace |
| Price.ForeignCharacterRejected | laptop-search.py:67-69 | a price text holding a character that is not a digit, a separator, a sign, whitespace or part of "â‚¬" never parses with the modelled `float()` after cleaning |
| Price.RealEuroSignRejected | laptop-search.py:67-69 | a price text holding a correctly decoded "€" never parses with the modelled `float()` after cleaning (the sign is no character Python's `float` accepts either) |
| Price.SecondDotRejected | laptop-search.py:69 | an unsigned numeral with two dots does not parse |
| Price.ThousandsSeparatorCleaned | laptop-search.py:68 | a price written "a.b,c" with a thousands dot and a decimal comma is cleaned into "a.b.c" |
| Price.ThousandsSeparatorRejected | laptop-search.py:68-69 | such a price then fails to parse |
| Price.ShowValue | laptop-search.py:69 | reading a numeral back gives the number it shows |
| Price.CleanEuroText | laptop-search.py:68 | cleaning "units,cc â‚¬" gives "units.cc" |
| Price.TrailingMojibakeRemoved | laptop-search.py:68 | the first substitution removes a trailing "â‚¬" |
| Price.DecimalCommaBecomesDot | laptop-search.py:68 | the second substitution turns the decimal comma into a dot |
| Price.CommaBecomesDot | laptop-search.py:68 | the second substitution turns the one comma of a text into a dot |
| Price.TrailingSpaceDropped | laptop-search.py:68 | the third substitution drops the space before the sign |
| Price.ParseShownAmount | laptop-search.py:69 | `float("units.cc")` is units + cc/100 |
| Price.ParseDecimalNumeral | laptop-search.py:69 | digits, a dot and digits parse to the whole part plus the fraction scaled by its number of places |
| Price.UnsignedNumeral | laptop-search.py:69 | a text that starts and ends with a digit is parsed as an unsigned numeral, without stripping or sign |
| Price.EuroTextRoundTrip | laptop-search.py:67-69 | cleaning and parsing a mangled euro price "units,cc â‚¬" gives back units + cc/100 |
| Product.SpecText | laptop-search.py:53 | a specification text keeps its length; each non-breaking space becomes a space and every other character stays in place |
| Product.SpecTexts | laptop-search.py:53 | the list comprehension keeps the items' count and order, each item with its non-breaking spaces replaced |
| Product.Admissible | laptop-search.py:57-72 | the filters: the GPU and CPU targets occur in the record's fields (an empty target always does) and the price is at most the ceiling |
| Product.FromCard | laptop-search.py:50-86 | a record is drawn from a card: stripped title, base URL without trailing slashes plus stripped href, specification items 0..6 in order, and the parsed cleaned price |
| Product.ParseProduct | laptop-search.py:44-90 | a card without a name link, with fewer than 7 specification items, or without a price yields `None`; an accepted record is drawn from the card (`FromCard`: stripped title, base URL without trailing slashes plus stripped href, specification items 0..6 as screen, resolution, os, cpu, gpu, ram, storage, the parsed price) and carries the run's date; it passes the GPU and CPU substring filters and the price ceiling |
| Product.Candidate | laptop-search.py:50-86 | the record a well-formed card describes, before any filter, is drawn from the card as `FromCard` says |
| Product.CandidateIsDetermined | laptop-search.py:74-86 | a card determines its record: any record drawn from it is the one extracted |
| Product.ParseIsExtractThenFilter | laptop-search.py:44-90 | `parse_product` accepts a card exactly when it is well formed and its record passes every filter, whatever the order of the early returns |
| Product.PriceCeilingIsInclusive | laptop-search.py:71-72 | a card at exactly the maximum price is accepted, and one above it is rejected |
| Product.GpuFilterOnlyRemoves | laptop-search.py:58-59 | switching the GPU filter off never loses an accepted card nor changes its record |
| Product.ShippedConfigAcceptsMojibakePrice | laptop-search.py:44-90 | with the shipped configuration, a card priced "999,00 â‚¬" is accepted with price 999.00 and the fields in order |
| Product.RealEuroSignDropsCard | laptop-search.py:67-90 | under any configuration, the same card priced "999,00 €" is dropped |
| Product.MalformedCardDropped | laptop-search.py:46-55 | a card without a name link, without a `title` or `href`, or with fewer than 7 specification items yields `None` |
| Cache.IsFresh | laptop-search.py:25-27 | a cached copy exists and is strictly younger than one hour |
| Cache.RedirectedHome | laptop-search.py:35 | the response URL equals the base URL once leading and trailing slashes are stripped from both |
| Cache.Request | laptop-search.py:33 | a page number outside the site is answered by the home page |
| Cache.ReadBack | laptop-search.py:29-30 | reading a cache file in text mode leaves no carriage return, changes nothing in a text without one, and never lengthens the text |
| Cache.ReadBackLineBreaks | laptop-search.py:29-30 | a "\r\n" and a lone "\r" each come back as one "\n", and the characters before them are kept |
| Cache.CrLfLineReadsBackWithLf | laptop-search.py:29-30 | a page such as "<li>a\r\nb</li>" comes back from the cache as "<li>a\nb</li>" |
| Cache.Fetch | laptop-search.py:22-41 | the network is used exactly when the cached copy is missing or not strictly under one hour old; a fresh copy is returned as text mode reads it back; a downloaded text is the cached text of that page afterwards; `None` and cache hits leave the cache as it was |
| Cache.CacheHit | laptop-search.py:25-30 | a cached copy under an hour old is returned read back in text mode, exactly as stored when it holds no carriage return, with no request and no write |
| Cache.FetchWritesOnlyPage | laptop-search.py:23-39 | a fetch writes no cache file but its own page's |
| Cache.DownloadedPageIsServedFromCache | laptop-search.py:25-41 | a downloaded page is served again without a request, with its line breaks read back as "\n" (so unchanged when it holds no carriage return), by any fetch within the next hour, whatever the site then answers |
| Cache.RedirectEndsWithoutWrite | laptop-search.py:35-36 | a stale or missing page answered by the home page (slashes stripped on both sides) gives `None` and writes nothing |
| Cache.DownloadIsCached | laptop-search.py:38-41 | otherwise the downloaded text is returned and cached, stamped with the current time |
| Cache.PageCache.FetchPage | laptop-search.py:22-41 | `fetch_page` updates the cache directory and returns the page as `Fetch` says, and logs a request exactly when `Fetch` uses the network |
| Crawl.Accepted | laptop-search.py:110-113 | the records of a page are at most as many as its cards |
| Crawl.AcceptedAdmissible | laptop-search.py:110-113 | every record kept from a page passes the filters and carries the run's date |
| Crawl.AcceptedComeFromCards | laptop-search.py:110-113 | every kept record is what `parse_product` made of one of the page's cards |
| Crawl.AcceptedKeepsEveryRecord | laptop-search.py:110-113 | every card that `parse_product` accepts is kept |
| Crawl.AcceptedAppend | laptop-search.py:110-113 | processing cards in two runs keeps what processing them in one run keeps, in order |
| Crawl.Crawl | laptop-search.py:97-115 | the loop as a recursion over pages, threading the cache; its records, cache and requests are characterised by `CrawlIsPages`, `CrawlStoreIsWritten` and `CrawlRequestsAscend` |
| Crawl.Pages | laptop-search.py:93-117 | the reference result: the accepted records of each page up to the first end signal, concatenated in page order; `PagesAdmissible` and `PagesComeFromCards` state its content |
| Crawl.Outcome | laptop-search.py:98-108 | a page that continues the crawl has at least one card |
| Crawl.PagesComeFromCards | laptop-search.py:93-117 | every record of the crawl is what `parse_product` made of some card |
| Crawl.PagesAdmissible | laptop-search.py:93-117 | every record of the crawl passes the filters and carries the run's date |
| Crawl.FetchIsLocal | laptop-search.py:22-41 | a fetch reads and writes only its own page's cache file, so the pages still to come see the cache as it was |
| Crawl.CrawlUnfolds | laptop-search.py:97-115 | the crawl stops with no further records at an end signal; otherwise it yields the page's records followed by the crawl from the next page |
| Crawl.CrawlIsPages | laptop-search.py:93-117 | the loop's result is the in-order concatenation of the records of pages `page`, `page + 1`, … up to the first end signal (`Pages`) |
| Crawl.CrawlGathers | laptop-search.py:93-117 | a crawl from page 1 gathers exactly `Pages`, and every record in it is admissible and dated |
| Crawl.CrawlTurn | laptop-search.py:97-115 | one turn of the loop: an end signal completes the crawl; a page with cards adds its records in card order and the crawl goes on from the next page |
| Crawl.CrawlRequests | laptop-search.py:97-115 | the crawl requests the current page when its fetch uses the network, then, unless the page ends the crawl, the pages the crawl from the next page requests |
| Crawl.AscendingPrepend | laptop-search.py:115 | requesting page `p` before ascending pages past `p` keeps the requests ascending |
| Crawl.CrawlRequestsAscend | laptop-search.py:94-115 | the pages requested from the network come in strictly ascending order from the first page on |
| Crawl.Written | laptop-search.py:38-39 | the cache with each downloaded page written in: it holds the old files and the downloaded pages, a downloaded page holding the site's text stamped `now`, and every other file as before |
| Crawl.FetchStore | laptop-search.py:32-39 | a fetch that uses the network writes its page exactly when the site does not redirect home |
| Crawl.WrittenAppend | laptop-search.py:97-115 | writing the downloads of two stretches of the crawl one after the other is writing all of them |
| Crawl.CrawlStoreIsWritten | laptop-search.py:93-117 | the cache after a crawl is the cache before it with every page the crawl downloaded written in |
| Crawl.FirstRunCachesDownloads | laptop-search.py:93-117 | a first run on an empty cache leaves exactly one cache file per downloaded page, holding the text the site answered |
| Crawl.AcceptCards | laptop-search.py:110-113 | the inner loop keeps exactly the accepted records, in card order |
| Crawl.ScrapeAll | laptop-search.py:93-117 | `scrape_all` returns the records, leaves the cache and logs the requests exactly as the crawl from page 1 does; its result is `Pages`, and every record passes the filters and carries the run's date |
| Csv.HeaderRow | laptop-search.py:125-131 | the header holds the 11 column names in order |
| Csv.RecordRow | laptop-search.py:125-132 | a record line has the 11 columns, and column `i` holds the record's value under the name `Fields[i]`, as `DictWriter` places the dictionary of lines 74-86 |
| Csv.RecordRowRoundTrip | laptop-search.py:125-132 | a written record line reads back as the record, field by field in column order |
| Csv.HeaderIsNoRecord | laptop-search.py:130-131 | the header line never reads as a record |
| Csv.Rows | laptop-search.py:132 | `writerows` writes one line per record |
| Csv.Records | laptop-search.py:132 | a file holds at most one record per line |
| Csv.RecordsAppend | laptop-search.py:128 | appending lines appends their records |
| Csv.RowsRoundTrip | laptop-search.py:132 | reading back the lines written for some records gives those records, in order |
| Csv.RowsAreRecords | laptop-search.py:132 | line `i` of what `writerows` writes is record `i` |
| Csv.Saved | laptop-search.py:120-132 | saving no data leaves the file as it was; saving data leaves the file present, with its old lines as a prefix |
| Csv.SavedWellFormed | laptop-search.py:127-132 | saving keeps a well-formed file well formed: one header on the first line, record lines after it |
| Csv.SavedReadsBack | laptop-search.py:120-132 | after saving, the file reads back as its old records followed by the saved ones, in order |
| Csv.CsvFile.SaveCsv | laptop-search.py:120-132 | `save_csv` changes the file as `Saved` says: nothing for no data, otherwise the header only when the file did not exist, then one line per record |
| Search.RunSearch | laptop-search.py:135-137 | a run returns the crawl's records and leaves the cache and the request log as the crawl from page 1 does; the records are `Pages` and all pass the filters with the run's date; the CSV file changes as `Saved` says and reads back as its old records followed by the new ones |

## Left out

- `pdf_to_png.py` is not part of this model. It is a loop over PDF-rendering library calls with no logic of its own.
- HTTP: the request, the `User-Agent` header, the `SEARCH_URL` format and redirect following are reduced to a final URL and a body per page. Network errors, which would end the run with an exception, are not modelled.
- The site is a finite sequence of responses. A site that never redirects home and always has cards would make the script loop forever; the model cannot express that run.
- BeautifulSoup: the CSS selections are parameters (`soup`, and the already-split `Card`), and `get_text(strip=True)` is taken as already applied to the texts a card holds.
- Filesystem and clock: `os.makedirs`, reading and writing files and `datetime.now()` become the store, the CSV lines and the parameters `now` and `date`. The source reads the clock separately for each cache check and each record; the model uses one reading per run.
- Cache.Fetch: the cache file is taken to be written as the response text is, as on POSIX; on a platform whose line separator is "\r\n", text-mode writing would also translate each "\n", and that is not modelled. Reading back is modelled by `ReadBack`.
- `print` messages are left out.
- Price.ParseFloat: models `float()` only on plain decimal notation (optional sign, digits, at most one dot, at least one digit, surrounding whitespace). Exponents, `inf`, `nan`, underscores and non-ASCII digits are treated as unparseable, and values are exact reals rather than IEEE doubles.
- Product.ParseProduct: because of that restriction, some cards are judged differently from the source. A price such as "1e3 â‚¬", "1_000" or one in non-ASCII digits is accepted by the source and dropped by the model. A price of "nan" is accepted by the source with a NaN price, because `nan > MAX_PRICE` is false at line 71; the model drops it. So the price bound of `Admissible` holds for every record of the model but not for a NaN record of the source. Likewise "inf" is rejected by both, but "-inf" is accepted by the source and dropped by the model. Finally the model compares exact values where `float()` rounds: "1000.00000000000001" rounds to 1000.0, so with a ceiling of 1000 the source accepts it at 1000.0 and the model drops it.
- Csv.CsvFile.SaveCsv: cells are kept as values; CSV quoting, line endings, UTF-8 encoding and the printed form of floats are not modelled.
- Cache.PageCache.FetchPage: the log of network requests is ghost state, recording an effect the model otherwise abstracts.
- Exceptions other than those the model makes explicit (an absent `title` or `href`, an unparseable price) cannot arise from the modelled inputs, so the `except` branch of `parse_product` is covered by the `None` results.
