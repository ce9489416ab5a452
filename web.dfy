/**
 * What the engine gets from the web libraries, as plain values: the
 * outcome of an HTTP request and the parts of a parsed HTML document it
 * uses.  Fetching and parsing are performed outside the model and handed
 * in as these values or as functions returning them.
 */
module Web {
  import opened Wrappers

  /** `Connection.Response` with HTTP errors ignored: the code, the content type header and the body. */
  datatype Response = Response(statusCode: int, contentType: Option<string>, body: string)

  /**
   * A parsed document: `text()` (the visible text), `title()`,
   * `outerHtml()` and, for every `a[href]` element, its absolute url.
   */
  datatype Document = Document(text: string, title: string, outerHtml: string, links: seq<string>)
}
