/**
 * The values the list screen handles: story records from the search
 * endpoint, the outcome of one request for a page, and the navigation
 * request emitted when a record is pressed.
 */
module Records {
  import opened Wrappers

  /** One story hit. Only `title` and `author` are ever interpreted. */
  datatype Record = Record(
    title: string,
    author: string,
    url: Option<string>,
    created_at: string,
    _tags: seq<string>)

  /**
   * What the awaited request produced: a resolved response with its HTTP
   * status and, when the payload has one, its `hits` array; or a rejected
   * (thrown) request.
   */
  datatype Outcome =
    | Resolved(status: int, hits: Option<seq<Record>>)
    | Rejected(reason: string)
  {
    /** Status 200 with hits that can be spread into the list. */
    predicate Delivers() {
      Resolved? && status == 200 && hits.Some?
    }
  }

  /** The route parameters handed to the details screen. */
  datatype DetailsParams = DetailsParams(data: Record)

  /** A call `navigation.navigate(screen, params)`. */
  datatype Navigation = Navigate(screen: string, params: DetailsParams)
}
