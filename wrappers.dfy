/** Small value wrappers shared by the extraction modules. */
module Wrappers {

  /** An optional value: the parser's "following element, if any". */
  datatype Option<+T> = None | Some(value: T)

  /** The outcome of fetching and parsing one page: the transport either fails
      (a bad status or a network error, both reported as one kind) or yields
      the parsed body. */
  datatype Response<+T> = Failed | Fetched(body: T)
}
