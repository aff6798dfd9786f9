/** The URL parser of the WHATWG URL Standard (`new URL(input)` and
    `new URL(input, base)`), kept abstract. `Protocol(input)` is the
    `.protocol` of the parsed URL (such as "https:"), or `None` where the
    constructor throws; `Resolve(input, base)` is the `.href` of the resolved
    URL, or `None` where it throws. */
module UrlApi {
  import opened Wrappers

  datatype UrlParser = UrlParser(
    Protocol: string -> Option<string>,
    Resolve: (string, string) -> Option<string>)

  /** The prefix every link into the proxy starts with. */
  const ProxyBase: string := "/proxy?url="
}
