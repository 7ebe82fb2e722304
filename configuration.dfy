/** The configuration block at the head of the crawler, as one value that is
    built once and handed to every stage. */
module Configuration {

  /** `baseUrl` is the site's home page, `targetGpu` and `targetCpu` the
      substring filters (the empty text switches a filter off) and `maxPrice`
      the inclusive price ceiling. */
  datatype Config = Config(baseUrl: string, targetGpu: string, targetCpu: string, maxPrice: real)

  /** The values the source ships with. */
  const Shipped: Config := Config("", "", "", 1000.0)
}
