/**
 * The JSON body of a search answer (`SearchResponseDto`) and one hit in it
 * (`SearchResultDto`), with the three static factories.  Java's null is
 * `None`; an unset `int` field is 0.
 */
module SearchResponse {
  import opened Wrappers

  datatype SearchResult = SearchResult(
    site: string,
    siteName: string,
    uri: string,
    title: string,
    snippet: string,
    relevance: real)

  datatype SearchResponseDto = SearchResponseDto(
    result: bool,
    error: Option<string>,
    count: int,
    data: Option<seq<SearchResult>>)

  /** A success carries data and no error; a failure carries an error and no data. */
  predicate WellFormed(r: SearchResponseDto) {
    (r.result <==> r.error.None?) && (r.result <==> r.data.Some?)
  }

  function Ok(data: seq<SearchResult>, count: int): (r: SearchResponseDto)
    ensures WellFormed(r)
    ensures r.result && r.data == Some(data) && r.count == count && r.error.None?
  {
    SearchResponseDto(true, None, count, Some(data))
  }

  function OkEmpty(): (r: SearchResponseDto)
    ensures WellFormed(r)
    ensures r.result && r.data == Some([]) && r.count == 0 && r.error.None?
  {
    Ok([], 0)
  }

  function Error(message: string): (r: SearchResponseDto)
    ensures WellFormed(r)
    ensures !r.result && r.error == Some(message) && r.data.None? && r.count == 0
  {
    SearchResponseDto(false, Some(message), 0, None)
  }

  /** The factories are told apart by `result`, and an error never looks like an empty success. */
  lemma FactoriesDistinct(data: seq<SearchResult>, count: int, message: string)
    ensures Ok(data, count) != Error(message)
    ensures OkEmpty() == Ok([], 0)
    ensures Ok(data, count) == OkEmpty() <==> data == [] && count == 0
  {
  }
}
