/** The shapes of caption data shared by the offline converter, the runtime grouper and
    the page that shows the active chunk. */
module Captions {

  datatype Option<T> = None | Some(value: T)

  /** One timed chunk of a caption as the converter writes it: `{ text, startMs, endMs }`.
      A fetched caption may carry a list of these. */
  datatype Token = Token(text: string, startMs: int, endMs: int)

  /** One timed chunk of a page as the presentation layer reads it: `{ text, fromMs, toMs }`. */
  datatype PageToken = PageToken(text: string, fromMs: int, toMs: int)

  /** A caption with its chunks, as the presentation layer reads it. */
  datatype Page = Page(text: string, startMs: int, endMs: int, durationMs: int, tokens: seq<PageToken>)

  /** The half-open window `[fromMs, toMs)` of a page token contains the time t. */
  predicate Contains(tok: PageToken, t: int) {
    tok.fromMs <= t < tok.toMs
  }
}
