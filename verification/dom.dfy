/**
 * The parts of an HTML page and of the HTTP exchange that the scraper looks
 * at, abstracted away from the HTML parser and the network library.
 */
module Dom {
  import opened Wrappers

  /** The keyword arguments of one BeautifulSoup `find` call: tag name, `id` and `class_`. */
  datatype Selector = Selector(name: Option<string>, id: Option<string>, cls: Option<string>)

  /**
   * An element of a parsed page. `found` is what `find` returns for each
   * selector asked of it (a selector that is absent finds nothing);
   * `attrs` are its attributes; `rows` holds, for each `tr` that is a
   * direct child, the untrimmed `get_text()` of each of its `td` cells.
   */
  datatype Element = Element(attrs: map<string, string>, found: map<Selector, Element>, rows: seq<seq<string>>)

  /** `element.find(**selector)`: the first match, or `None`. */
  function Find(e: Element, sel: Selector): (r: Option<Element>)
    ensures r.Some? <==> sel in e.found
  {
    if sel in e.found then Some(e.found[sel]) else None
  }

  /** `element.get(name, default)`: an attribute value with a fallback. */
  function Attr(e: Element, name: string, default: string): (r: string)
    ensures name in e.attrs ==> r == e.attrs[name]
    ensures name !in e.attrs ==> r == default
  {
    if name in e.attrs then e.attrs[name] else default
  }

  /** A GET request: a URL and the optional `page` query parameter. */
  datatype Request = Request(url: string, page: Option<int>)

  /** What the network gives back: no response at all, or a status code and the parsed body. */
  datatype Response = Unreachable | Response(status: int, body: Element)

  /** The remote site, as a function from requests to responses. */
  type Web = Request -> Response
}
