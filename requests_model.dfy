/**
 * The request bodies the API accepts and the checks their model classes run
 * when a request is parsed: the YouTube URL validator, the `min_length=1`
 * fields and the default collection name of a retrieval query.
 */
module RequestsModel {
  import opened Text
  import opened Wrappers

  const InvalidYoutubeUrl: string := "Invalid YouTube URL"
  const DefaultCollectionName: string := "user_documents"

  /** Why a request body is refused. */
  datatype ValidationError =
    | InvalidValue(field: string, message: string)
    | TooShort(field: string, minLength: nat)

  datatype VideoPitchRequest = VideoPitchRequest(youtubeUrl: string)
  datatype CompetitorRequest = CompetitorRequest(companyName: string, companyUrl: string)
  datatype RagQueryRequest = RagQueryRequest(query: string, collectionName: string)

  /** `validate_youtube_url`: accepts a value containing "youtube.com" or "youtu.be", unchanged. */
  function ValidateYoutubeUrl(v: string): (r: Result<string, string>)
    ensures r.Success? <==> (Contains(v, "youtube.com") || Contains(v, "youtu.be"))
    ensures r.Success? ==> r.value == v
    ensures r.Failure? ==> r.error == InvalidYoutubeUrl
  {
    if !Contains(v, "youtube.com") && !Contains(v, "youtu.be") then Failure(InvalidYoutubeUrl)
    else Success(v)
  }

  /** Parsing a `VideoPitchRequest` body: the URL must pass `validate_youtube_url`. */
  function ParseVideoPitchRequest(youtubeUrl: string): (r: Result<VideoPitchRequest, ValidationError>)
    ensures r.Success? <==> ValidateYoutubeUrl(youtubeUrl).Success?
    ensures r.Success? ==> r.value.youtubeUrl == youtubeUrl
  {
    match ValidateYoutubeUrl(youtubeUrl)
    case Failure(message) => Failure(InvalidValue("youtube_url", message))
    case Success(url) => Success(VideoPitchRequest(url))
  }

  /** Parsing a `CompetitorRequest` body: `company_name` needs at least one character. */
  function ParseCompetitorRequest(companyName: string, companyUrl: string): (r: Result<CompetitorRequest, ValidationError>)
    ensures r.Success? <==> |companyName| >= 1
    ensures r.Success? ==> r.value == CompetitorRequest(companyName, companyUrl)
    ensures r.Failure? ==> r.error == TooShort("company_name", 1)
  {
    if |companyName| < 1 then Failure(TooShort("company_name", 1))
    else Success(CompetitorRequest(companyName, companyUrl))
  }

  /**
   * Parsing a `RagQueryRequest` body: `query` needs at least one character and
   * an absent `collection_name` defaults to "user_documents".
   */
  function ParseRagQueryRequest(query: string, collectionName: Option<string>): (r: Result<RagQueryRequest, ValidationError>)
    ensures r.Success? <==> |query| >= 1
    ensures r.Success? ==> r.value.query == query
    ensures r.Success? && collectionName.None? ==> r.value.collectionName == "user_documents"
    ensures r.Success? && collectionName.Some? ==> r.value.collectionName == collectionName.value
  {
    if |query| < 1 then Failure(TooShort("query", 1))
    else Success(RagQueryRequest(query, if collectionName.Some? then collectionName.value else DefaultCollectionName))
  }
}
