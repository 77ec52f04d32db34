/** The two calls to the upstream read-only API (`fetchCharactersFromApi` and
    `fetchLocationsFromApi`) and how their failures are turned into the service's
    own errors. The HTTP client is a parameter `get` from request URL to outcome. */
module ExternalApi {
  import opened Wrappers
  import opened CharacterQuery

  /** The paged envelope `Info<T>`: pagination metadata of type `M` and the results. */
  datatype Info<M, T> = Info(info: Option<M>, results: seq<T>)

  /** Why the GET failed. `HttpError` is an axios error; its status is that of the
      response, `None` when no response arrived. `OtherError` is anything else thrown. */
  datatype UpstreamFailure<X> =
    | HttpError(status: Option<int>, message: string)
    | OtherError(cause: X)

  /** What `axios.get` produced: the response body, or a failure. */
  datatype Upstream<D, X> = Received(data: D) | Rejected(failure: UpstreamFailure<X>)

  /** The errors the two fetches raise: an `InternalServerErrorException` with its
      message, or the non-HTTP error thrown again as it was. */
  datatype ApiError<X> = InternalServerError(message: string) | Rethrown(cause: X)

  /** The 404 answer: `{ info: undefined, results: [] }`. */
  function EmptyPage<M, T>(): Info<M, T> {
    Info(None, [])
  }

  /** The message of the internal-server error, for resource "characters" or "locations". */
  function FailureMessage(resource: string, upstreamMessage: string): string {
    "Error fetching " + resource + ": " + upstreamMessage
  }

  /** The `catch` block: a 404 becomes an empty page, any other HTTP error an
      internal-server error naming the resource, and a non-HTTP error is rethrown. */
  function Recover<M, T, X>(failure: UpstreamFailure<X>, resource: string): (r: Result<Info<M, T>, ApiError<X>>)
    ensures r.Success? <==> failure.HttpError? && failure.status == Some(404)
    ensures r.Success? ==> r.value.info.None? && r.value.results == []
    ensures failure.HttpError? && failure.status != Some(404) ==>
      r == Failure(InternalServerError("Error fetching " + resource + ": " + failure.message))
    ensures failure.OtherError? ==> r == Failure(Rethrown(failure.cause))
  {
    match failure
    case HttpError(status, message) =>
      if status == Some(404) then Success(EmptyPage())
      else Failure(InternalServerError(FailureMessage(resource, message)))
    case OtherError(cause) => Failure(Rethrown(cause))
  }

  /** `fetchCharactersFromApi(filter)`: one GET of the URL built from the filter;
      the body on success, otherwise the recovered failure. */
  function FetchCharacters<M, T, X>(
    apiUrl: string,
    filter: Filter,
    enc: string -> string,
    get: string -> Upstream<Info<M, T>, X>): (r: Result<Info<M, T>, ApiError<X>>)
    ensures var outcome := get(RequestUrl(CharactersEndpoint(apiUrl), filter, enc));
      && (outcome.Received? ==> r == Success(outcome.data))
      && (outcome.Rejected? ==> r == Recover(outcome.failure, "characters"))
  {
    var url := RequestUrl(CharactersEndpoint(apiUrl), filter, enc);
    match get(url)
    case Received(data) => Success(data)
    case Rejected(failure) => Recover(failure, "characters")
  }

  /** `${API_URL}/location`. */
  function LocationsEndpoint(apiUrl: string): string {
    apiUrl + "/location"
  }

  /** `fetchLocationsFromApi()`: one GET of the bare locations URL. */
  function FetchLocations<M, T, X>(
    apiUrl: string,
    get: string -> Upstream<Info<M, T>, X>): (r: Result<Info<M, T>, ApiError<X>>)
    ensures var outcome := get(LocationsEndpoint(apiUrl));
      && (outcome.Received? ==> r == Success(outcome.data))
      && (outcome.Rejected? ==> r == Recover(outcome.failure, "locations"))
  {
    match get(LocationsEndpoint(apiUrl))
    case Received(data) => Success(data)
    case Rejected(failure) => Recover(failure, "locations")
  }

  /** Whatever the filter, an upstream 404 is an empty success for characters,
      another HTTP failure an internal-server error carrying the upstream message,
      and a non-HTTP failure comes back unchanged. */
  lemma FetchCharactersFailures<M, T, X>(
    apiUrl: string, filter: Filter, enc: string -> string,
    get: string -> Upstream<Info<M, T>, X>, failure: UpstreamFailure<X>)
    requires get(RequestUrl(CharactersEndpoint(apiUrl), filter, enc)) == Rejected(failure)
    ensures var r := FetchCharacters(apiUrl, filter, enc, get);
      && (failure.HttpError? && failure.status == Some(404) ==> r == Success(Info(None, [])))
      && (failure.HttpError? && failure.status != Some(404) ==>
            r == Failure(InternalServerError("Error fetching characters: " + failure.message)))
      && (failure.OtherError? ==> r == Failure(Rethrown(failure.cause)))
  {
    assert FetchCharacters(apiUrl, filter, enc, get) == Recover(failure, "characters");
    if failure.HttpError? {
      CharactersMessage(failure.message);
    }
  }

  /** Regrouping of the characters message. Stated separately because, left to the
      solver inside `FetchCharactersFailures`, this string step is costly. */
  lemma CharactersMessage(m: string)
    ensures "Error fetching " + "characters" + ": " + m == "Error fetching characters: " + m
  {
  }

  /** The same regrouping for the locations message. */
  lemma LocationsMessage(m: string)
    ensures "Error fetching " + "locations" + ": " + m == "Error fetching locations: " + m
  {
  }

  /** The same classification for locations, with the locations prefix. */
  lemma FetchLocationsFailures<M, T, X>(
    apiUrl: string, get: string -> Upstream<Info<M, T>, X>, failure: UpstreamFailure<X>)
    requires get(LocationsEndpoint(apiUrl)) == Rejected(failure)
    ensures var r := FetchLocations(apiUrl, get);
      && (failure.HttpError? && failure.status == Some(404) ==> r == Success(Info(None, [])))
      && (failure.HttpError? && failure.status != Some(404) ==>
            r == Failure(InternalServerError("Error fetching locations: " + failure.message)))
      && (failure.OtherError? ==> r == Failure(Rethrown(failure.cause)))
  {
    assert FetchLocations(apiUrl, get) == Recover(failure, "locations");
    if failure.HttpError? {
      LocationsMessage(failure.message);
    }
  }

  /** The characters request for the default filter is the bare `${API_URL}/character`. */
  lemma FetchCharactersNoFilter<M, T, X>(
    apiUrl: string, enc: string -> string, get: string -> Upstream<Info<M, T>, X>)
    ensures get(apiUrl + "/character").Received? ==>
      FetchCharacters(apiUrl, NoFilter, enc, get) == Success(get(apiUrl + "/character").data)
  {
    NoFilterIsBareUrl(CharactersEndpoint(apiUrl), enc);
  }
}
