# CharactersService, modelled in Dafny

This project models `CharactersService` from the Rick and Morty backend. It has
two halves:

- **The upstream API client.** `fetchCharactersFromApi` turns an optional
  character filter into a request URL and fetches it. `fetchLocationsFromApi`
  fetches the locations URL. Both turn an upstream failure into one of three
  outcomes: an empty page for HTTP 404, an internal-server error for any other
  HTTP error, or the original error rethrown when it is not an HTTP error.
- **The Firestore record store.** It does create, read-all, read-by-id, update
  and delete over the `characters` collection. Create backfills defaults with
  `||`. Update returns a shallow overlay of the pre-write snapshot. Every
  operation that takes an id checks the document exists before it writes.

Everything is modelled as pure functions over immutable values:

- A JavaScript/JSON value is `JsValue.Value`. JavaScript truthiness is
  `JsValue.Truthy`: every array and every object is truthy, even an empty one.
- A document is a `map<string, Value>`. The collection is a
  `map<string, Record>`.
- An operation that writes takes the collection before the call and returns the
  collection after it.
- The HTTP client is a function parameter `get`. It maps a request URL to a
  response body or a failure.
- The clock is a parameter `now`. Firestore's id generator is a parameter
  `freshId`, which must not already be in the collection.
- `URLSearchParams` follows the application/x-www-form-urlencoded serializer in
  section 5.2 of the WHATWG URL Standard. It is modelled with the percent-encoding
  of one name or value left as a parameter `enc`. Its round trip is proved
  against the parser of section 5.1, given a decoder `dec` that undoes `enc`.

Files:

- `wrappers.dfy`: `Option` and `Result`.
- `js_value.dfy`: JSON values, truthiness, `||` and object spread.
- `number_text.dfy`: `String(n)` for an integer page number.
- `form_urlencoded.dfy`: query serialization and parsing.
- `character_query.dfy`: filter to query parameters to request URL.
- `external_api.dfy`: the two fetches and the classification of their failures.
- `character_store.dfy`: the Firestore operations.

Behaviour of the code that is easy to miss:

- Create backfills a field whenever its input value is falsy, not only when it
  is omitted. So `name: ""` becomes `"Unknown"`. An empty `episode` array is
  truthy, so it is kept.
- Create overwrites `url` and `created` in the returned object even when the
  caller supplies them. The stored document keeps the caller's values.
- The page filter is sent whenever it is truthy. So a negative page is sent,
  and so is the text `"0"`; only the number 0 and the empty text are dropped.
- An axios error with no response counts as a non-404 HTTP error, so it
  becomes an internal-server error. Only errors that are not axios errors are
  rethrown unchanged.

## Model

| member | source | states |
|---|---|---|
| CharacterQuery.ParamsFollowTruthiness | src/characters/characters.service.ts:39-44 | Each `if (filter.x)` guard is JavaScript truthiness: a page number is sent exactly when it is non-zero, and a page text or text field exactly when it is non-empty, as `JsValue.Truthy` says. |
| CharacterQuery.QueryPairs | src/characters/characters.service.ts:37-44 | The query holds exactly the filter's truthy fields. Each pair carries the text sent for its field, each field appears at most once, and pairs come in the order page, name, status, species, type, gender. The query is empty exactly when no field is truthy. |
| CharacterQuery.QueryPairsUnfolded | src/characters/characters.service.ts:39-44 | The query is the result of the six guarded appends, in the source's order and with the source's parameter names. |
| CharacterQuery.UnsetFieldIsNotSent | src/characters/characters.service.ts:39-44 | For every filter, a field that is absent or falsy (page 0, an empty text) has no parameter in the query. |
| CharacterQuery.FalsyFieldsAreOmitted | src/characters/characters.service.ts:39-44 | The filter `{page: 0, name: "", species: ""}` sends no query at all. |
| CharacterQuery.PageTextZeroIsSent | src/characters/characters.service.ts:39 | The page text "0" is truthy, so it is sent as `page=0`. |
| CharacterQuery.PageThenName | src/characters/characters.service.ts:39-40 | `{page: 2, name: "rick"}` gives `page=2`, then `name=rick`. |
| CharacterQuery.WithQuery | src/characters/characters.service.ts:46-48 | The URL is left alone exactly when the query is empty. Otherwise `?` and the serialized query are appended. |
| CharacterQuery.RequestUrl | src/characters/characters.service.ts:36-48 | The URL equals the bare endpoint if and only if no filter field is truthy. |
| CharacterQuery.RequestUrlCarriesFilter | src/characters/characters.service.ts:36-48 | Starting from the request URL, a receiver finds the endpoint, then either nothing or a `?`. Parsing what follows the `?` gives back exactly the query pairs, in order. |
| CharacterQuery.NoFilterIsBareUrl | src/characters/characters.service.ts:34-48 | The default empty filter requests the bare endpoint. |
| FormUrlEncoded.ParseSerialize | src/characters/characters.service.ts:47 | Parsing a serialized query gives back every pair in order, provided the encoding escapes `&` and `=` and can be undone. |
| NumberText.IntTextRoundTrip | src/characters/characters.service.ts:39 | The text `String(page)` sends for an integer page reads back as that integer. |
| ExternalApi.Recover | src/characters/characters.service.ts:53-63 | Recovery succeeds exactly for an HTTP 404, and then gives an empty page with no info. Any other HTTP error gives an internal-server error: its message is the "Error fetching <resource>: " prefix followed by the upstream message. A non-HTTP error is rethrown unchanged. |
| ExternalApi.FetchCharacters | src/characters/characters.service.ts:50-63 | A received body is returned as is. A failure of the GET to the filter's URL goes through the characters recovery. |
| ExternalApi.FetchCharactersFailures | src/characters/characters.service.ts:53-63 | For any filter: a 404 yields `{info: undefined, results: []}`. Another HTTP error yields an internal-server error with message "Error fetching characters: " + the upstream message. A non-HTTP error comes back unchanged. |
| ExternalApi.FetchCharactersNoFilter | src/characters/characters.service.ts:33-52 | With the default filter, the request goes to `${API_URL}/character` with no query, and its body is returned. |
| ExternalApi.FetchLocations | src/characters/characters.service.ts:69-85 | A received body from `${API_URL}/location` is returned as is. A failure goes through the locations recovery. |
| ExternalApi.FetchLocationsFailures | src/characters/characters.service.ts:74-84 | A 404 yields an empty page. Another HTTP error yields "Error fetching locations: " + the upstream message. A non-HTTP error comes back unchanged. |
| CharacterStore.Create | src/characters/characters.service.ts:90-111 | Create adds exactly one document, under the fresh id, holding the caller's data unchanged. Every other document is kept. It returns the created view, not the stored document. |
| CharacterStore.CreatedView | src/characters/characters.service.ts:94-108 | The view carries the fresh id, an empty url and the creation time. Each backfilled field holds the input value when it is truthy and its default otherwise. Every other input field is kept as given. The view has no fields beyond these. |
| CharacterStore.CreateThenRead | src/characters/characters.service.ts:90-142 | Reading a freshly created document returns the caller's raw fields plus the id. |
| CharacterStore.CreatedViewIsNotStored | src/characters/characters.service.ts:93-109 | Creating `{}` returns name "Unknown", but the stored document has no name, so a later read differs from the returned view. |
| CharacterStore.CreateMorty | src/characters/characters.service.ts:95-99 | Creating `{name: "Morty"}` keeps the name, and sets the fresh id, an empty url and the creation time. |
| CharacterStore.CreateMortyDefaults | src/characters/characters.service.ts:100-107 | Creating `{name: "Morty"}` sets unknown status and gender, empty origin and location, and no episodes. |
| CharacterStore.CreateBackfillsByTruthiness | src/characters/characters.service.ts:98-108 | An empty episode array is kept because it is truthy. An empty name is replaced by "Unknown". A caller-supplied url is overwritten with "". |
| CharacterStore.NotFoundMessageNamesId | src/characters/characters.service.ts:135-137 | The not-found message contains the requested id. |
| CharacterStore.GetById | src/characters/characters.service.ts:131-142 | Read-by-id succeeds exactly when the id is stored. On success it returns the stored fields with `id` forced to the document id, and no other field added. On failure it returns NotFound with a message naming the id. |
| CharacterStore.GetAll | src/characters/characters.service.ts:117-126 | Read-all lists one record per stored document, with no duplicates. Each record is that document's fields with `id` forced to the document id. |
| CharacterStore.ListingsAgree | src/characters/characters.service.ts:117-126 | Any two complete listings of the same collection hold the same set of records, whatever their order. |
| CharacterStore.GetAllTwice | src/characters/characters.service.ts:117-126 | Two read-alls with no write in between return the same set of records, with the same length. |
| CharacterStore.Update | src/characters/characters.service.ts:147-166 | On a missing id, update fails with NotFound and leaves the store unchanged. Otherwise only that document changes: it becomes the stored fields overlaid by the update. The returned record has `id` forced to the document id, takes every updated field from the update, and keeps every other stored field. |
| CharacterStore.UpdateThenRead | src/characters/characters.service.ts:151-165 | With a shallow overlay, the record update returns equals what a read right after the write returns. |
| CharacterStore.UpdateRick | src/characters/characters.service.ts:158-165 | Setting status "Dead" on a stored Rick returns status "Dead", name "Rick" and the same id. |
| CharacterStore.Delete | src/characters/characters.service.ts:171-183 | On a missing id, delete fails with NotFound and leaves the store unchanged. Otherwise it returns `{success: true}`, removes exactly that id and leaves every other document untouched. |
| CharacterStore.DeleteThenRead | src/characters/characters.service.ts:174-182 | After a successful delete, reading the same id fails with NotFound. |

## Left out

- The network call `axios.get` and the Firestore client are not modelled. The HTTP outcome is a function parameter, and the collection is a map.
- A Firestore call can fail for reasons other than a missing document. Such failures are not modelled: every Firestore call in the model succeeds.
- The model treats an id as a plain document id: a read, update or delete finds a document only under exactly that key. `collection('characters').doc(id)` at src/characters/characters.service.ts:132, 151 and 174 reads the id as a slash-separated path instead, and drops empty segments. Three cases differ from the model:
  - An id with an even number of extra segments, such as `a/b/c` (the route `GET /characters/a%2Fb%2Fc`), points to a document in a subcollection. The model does not model subcollections, and reports NotFound.
  - An id with a leading or trailing `/`, such as `abc/` or `/abc`, reaches the document `abc`. The source then reads, updates or deletes `abc`, but the model reports NotFound and leaves `abc` in place.
  - The empty id, an id holding `//`, and ids such as `a/b` that give an odd number of segments are rejected by Firestore before any existence check, and the request ends in a 500. The model reports NotFound.
- Firestore-specific update semantics are not modelled: dotted field paths, server transforms, and rejection of an empty update. Update is a shallow field overlay.
- `new Date().toISOString()` is the parameter `now`. ISO-8601 formatting is not modelled.
- Firestore's id generation is the parameter `freshId`, which must not already be in the collection.
- `process.env.API_URL` is the parameter `apiUrl`. If it is undefined, the source builds `undefined/character`, and that case is not distinguished.
- The percent-encoding of `URLSearchParams` is the parameter `enc`. Its byte-level rules are not re-verified.
- Numbers are integers, so JSON floating-point values and NaN are not modelled.
- CharacterQuery.PageParam: uses plain decimal text for every integer page. JavaScript prints magnitudes of 10^21 and above in exponent form, and that case is not modelled.
- A repeated query parameter, which Nest delivers as an array, is not modelled. Each filter field is a single text.
- The upstream `Character`, `Location` and pagination-info shapes are type parameters. They pass through unchanged, and src/interfaces/rick-and-morty.interface.ts is not part of this model.
- Concurrent updates to the same id race with last-write-wins. Concurrency is not modelled.
- The controller (src/characters/characters.controller.ts) and src/main.ts are not modelled. The controller only delegates each route to one service method. main.ts only does bootstrap and configuration.
