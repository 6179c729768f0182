# SuperHeroDirectory search list and request layer in Dafny

This project models the core of SuperHeroDirectory, an iOS app that lists and searches superhero
records. The model has two layers.

**The request layer** (`Request.swift`).
- `HTTPMethod.value` gives a method's token.
- `asURLRequest()` turns a `Request` (URL, method, optional parameters, optional headers) into the
  wire `URLRequest`:
  - it sets the header fields;
  - a POST gets a JSON or url-encoded body;
  - a GET gets its parameters as a query with every `+` re-escaped.
- `percentEscapeString` escapes form values.
- `converted` maps transport errors.
- `response` classifies a completed data task.
- `responseObject` decodes a success into a model or wraps the decoding error.

**The search list** (`SearchListPresenter.swift` and `SearchListState.swift`).
- The presenter keeps an `isLoading` flag and a pagination use case.
- Its `didSet` tells the view to start or stop its loading indicator.
- It guards `fetch`, `fetch(startsWith:)`, `fetchMore` and `refresh`, and turns completions into
  view updates.
- The list state changes the pagination offset when its page state is assigned.
- Its view-state equality holds only for two `.loading` values.

The modules are:

- `Wrappers`: `Option` and `Result`.
- `Text`: joining, splitting and replacing characters in strings.
- `Utf8`: an encoder for Unicode scalars, a strict decoder (overlong forms, surrogates and values
  above U+10FFFF are rejected), and the round trip between them.
- `Percent`: `%XY` triplets with uppercase hex, and the percent-decoder a server applies to a form
  or query, with or without reading `+` as a space.
- `FormEncoding`:
  - `percentEscapeString`;
  - the url-encoded POST body and a proof that a server parsing it gets back the parameters that
    were sent;
  - the `+` re-escaping of a GET query and a proof that it keeps the query's meaning and removes
    the `+` ambiguity.
- `Networking`:
  - `HTTPMethod`, the `URLRequest` class and `AsURLRequest`;
  - the error types, `Converted`, `Response` and `ResponseObject`.
- `Superheroes`: the decoded character record.
- `Pagination`: the pagination use case. Its source is not part of this model, so it is a
  history of offset operations plus the function that maps a history to a page window.
- `ListState`: the `SearchListState` class and `ViewState` equality.
- `ListPresenter`: the `SearchListPresenter` class.
  - The view and the router calls are recorded as an event log.
  - Its invariant ties the pagination history to the use-case calls in the log, each call to the
    page window after its own offset update, and the view's indicator to the flag.
- `Scenarios`: client code that drives the classes through concrete uses (a short search is
  ignored, a search delivers a hero, a lost connection is shown, `fetch` is refused while a load is
  in flight, a completion reopens that guard while other loads are outstanding, a page state
  assigned twice).

Conventions:
- The character set `CharacterSet.alphanumerics` is a parameter. The lemmas that need it require
  only that it agrees with the ASCII letters and digits on ASCII characters, which the Unicode set
  does. Its non-ASCII members never matter: `addingPercentEncoding` escapes every character
  outside 7-bit ASCII, so "é" is sent as `%C3%A9`.
- The Foundation values of the `URLError` codes are constants.
- The view's and router's presence are flags fixed at construction.
- `HTTPError.localizedDescription` and the localized error title and text are parameters.

## Model

| member | source | states |
|---|---|---|
| Networking.MethodValue | SuperHeroDirectory/App/Shared/Networking/Request.swift:28-35 | the token is "GET" exactly for `.get` and "POST" exactly for `.post` |
| Networking.WithAddedValue | SuperHeroDirectory/App/Shared/Networking/Request.swift:107-113 | `addValue` sets an absent field, appends `,value` to a present one, and leaves every other field as it was |
| Networking.URLRequest.constructor | SuperHeroDirectory/App/Shared/Networking/Request.swift:105 | a new request has the URL, no header fields, no body and method GET |
| Networking.URLRequest.AddValue | SuperHeroDirectory/App/Shared/Networking/Request.swift:107-113 | only the header fields change, as `WithAddedValue` describes |
| Networking.AsURLRequest | SuperHeroDirectory/App/Shared/Networking/Request.swift:104-140 | the fresh wire request carries the wire headers, body, URL and the method token |
| Networking.AlwaysAcceptsJson | SuperHeroDirectory/App/Shared/Networking/Request.swift:106-107 | every wire request has an Accept field, `application/json` when the caller gave none, and otherwise with it appended |
| Networking.ContentTypeOnlyForPost | SuperHeroDirectory/App/Shared/Networking/Request.swift:106-115 | a POST always sends a Content-Type, its encoding's media type appended to any value of the caller's; a GET sends one only when the caller gave one, unchanged |
| Networking.OtherHeadersKept | SuperHeroDirectory/App/Shared/Networking/Request.swift:106-115 | every header field other than Accept and Content-Type is sent as the caller gave it |
| Networking.NoParametersNoChange | SuperHeroDirectory/App/Shared/Networking/Request.swift:116-136 | without parameters there is no body and the URL is unchanged |
| Networking.GetParametersOnlyInQuery | SuperHeroDirectory/App/Shared/Networking/Request.swift:127-135 | a GET never has a body, keeps its base URL, and its query, when there is one, contains no raw `+` |
| Networking.UrlEncodedBodyRoundTrip | SuperHeroDirectory/App/Shared/Networking/Request.swift:122-125 | the url-encoded body is valid UTF-8, and a form parser reads back from it exactly the keys and value descriptions sent, in order |
| Networking.Converted | SuperHeroDirectory/App/Shared/Networking/Request.swift:142-158 | the result is `unreachable` exactly for the six URL error codes, otherwise `clientError` wrapping the error |
| Networking.Response | SuperHeroDirectory/App/Shared/Networking/Request.swift:85-102 | success exactly when there is no error, the status is 2xx and data came, with that data; every failure is an `HTTPError` |
| Networking.TransportErrorDecides | SuperHeroDirectory/App/Shared/Networking/Request.swift:87-88 | a transport error decides the outcome whatever the response and data, as the converted error |
| Networking.SuccessfulStatus | SuperHeroDirectory/App/Shared/Networking/Request.swift:91-96 | a 2xx status gives the data, or `noData` when none came |
| Networking.UnsuccessfulStatus | SuperHeroDirectory/App/Shared/Networking/Request.swift:97-98 | any other status gives `serverError` carrying the response, whatever the data |
| Networking.ResponseObject | SuperHeroDirectory/App/Shared/Networking/Request.swift:64-78 | success exactly when the response succeeds and its data decodes, with the decoded value; every failure is an `HTTPError` |
| Networking.UndecodableIsDecodingError | SuperHeroDirectory/App/Shared/Networking/Request.swift:68-72 | data that does not decode gives `decodingError` wrapping the decoder's error |
| Networking.UpstreamFailurePassedOn | SuperHeroDirectory/App/Shared/Networking/Request.swift:74-75 | a failed response is passed on unchanged |
| FormEncoding.AddingPercentEncoding | SuperHeroDirectory/App/Shared/Networking/Request.swift:164 | every output character is an ASCII member of the allowed set, `%` or a hex digit; non-ASCII characters are always escaped |
| FormEncoding.PercentEscapeString | SuperHeroDirectory/App/Shared/Networking/Request.swift:160-166 | the output is ASCII, has no space, and every character is alphanumeric, one of `-._*+%` or a hex digit |
| FormEncoding.PercentEscapeAppend | SuperHeroDirectory/App/Shared/Networking/Request.swift:160-166 | escaping a concatenation escapes each part independently |
| FormEncoding.EscapeNonAscii | SuperHeroDirectory/App/Shared/Networking/Request.swift:161-164 | a non-ASCII character is sent as the `%XY` triples of its UTF-8 bytes, whatever the alphanumerics set holds |
| FormEncoding.EscapeAccentedLetter | SuperHeroDirectory/App/Shared/Networking/Request.swift:161-164 | "é" is sent as `%C3%A9` |
| FormEncoding.EscapeIndependentOfSet | SuperHeroDirectory/App/Shared/Networking/Request.swift:161-164 | any two sets that agree with the ASCII letters and digits escape every string alike |
| FormEncoding.EscapePlus | SuperHeroDirectory/App/Shared/Networking/Request.swift:161-165 | a literal `+` is escaped as `%2B` |
| FormEncoding.EscapePlusInside | SuperHeroDirectory/App/Shared/Networking/Request.swift:161-165 | a `+` anywhere in a value is sent as `%2B`, with the text around it escaped as usual |
| FormEncoding.PlusMarksSpace | SuperHeroDirectory/App/Shared/Networking/Request.swift:162-165 | the output contains `+` exactly when the input contains a space |
| FormEncoding.EscapeAlphabet | SuperHeroDirectory/App/Shared/Networking/Request.swift:160-166 | the output consists of unescaped characters, `+`, and complete `%XY` triplets |
| FormEncoding.EscapeDecodes | SuperHeroDirectory/App/Shared/Networking/Request.swift:160-166 | form-decoding the output (with `+` as space) gives the UTF-8 bytes of the input |
| FormEncoding.EscapeRecoversInput | SuperHeroDirectory/App/Shared/Networking/Request.swift:160-166 | form-decoding the output and then UTF-8 decoding gives back the input string |
| FormEncoding.DecimalDigits | SuperHeroDirectory/App/Shared/Networking/Request.swift:124 | the decimal text of a number is non-empty, all digits, and starts with `0` only for zero |
| FormEncoding.DecimalDigitsValue | SuperHeroDirectory/App/Shared/Networking/Request.swift:124 | the digits read back as the number |
| FormEncoding.IntDescription | SuperHeroDirectory/App/Shared/Networking/Request.swift:124 | an integer parameter is written as a `-` when negative and the digits of its magnitude, without leading zeros |
| FormEncoding.FormFields | SuperHeroDirectory/App/Shared/Networking/Request.swift:123-124 | one `key=escaped value` field per parameter, in order |
| FormEncoding.PlainKeyDecodes | SuperHeroDirectory/App/Shared/Networking/Request.swift:124 | a key of unescaped characters decodes to its own UTF-8 bytes |
| FormEncoding.FormFieldParses | SuperHeroDirectory/App/Shared/Networking/Request.swift:123-124 | a field is non-empty, has no `&`, and parses to the key's bytes and the value description's bytes |
| FormEncoding.SentPairs | SuperHeroDirectory/App/Shared/Networking/Request.swift:123-124 | one byte pair per parameter |
| FormEncoding.FormFieldsParse | SuperHeroDirectory/App/Shared/Networking/Request.swift:123-125 | parsing the fields one by one gives the pairs sent |
| FormEncoding.FormBodyRoundTrip | SuperHeroDirectory/App/Shared/Networking/Request.swift:123-125 | parsing the `&`-joined body gives exactly the pairs sent |
| FormEncoding.PlusEscapedQuery | SuperHeroDirectory/App/Shared/Networking/Request.swift:132 | a query stays present or absent, and has no raw `+` afterwards |
| FormEncoding.DecodeWithoutPlus | SuperHeroDirectory/App/Shared/Networking/Request.swift:132 | without `+`, reading `+` as a space or not makes no difference |
| FormEncoding.PlusEscapePreservesQuery | SuperHeroDirectory/App/Shared/Networking/Request.swift:132 | re-escaping `+` does not change what the query decodes to |
| FormEncoding.QueryUnambiguous | SuperHeroDirectory/App/Shared/Networking/Request.swift:132 | a server that reads `+` as a space still decodes the re-escaped query to the original query's bytes |
| Text.SplitJoin | SuperHeroDirectory/App/Shared/Networking/Request.swift:125 | splitting a join at a separator that no part contains gives back the parts |
| Text.SplitFirstPair | SuperHeroDirectory/App/Shared/Networking/Request.swift:124 | splitting `name=value` at the first `=` gives back name and value when the name has no `=` |
| Text.ReplaceAll | SuperHeroDirectory/App/Shared/Networking/Request.swift:165 | a replaced character does not survive unless the replacement contains it |
| Text.ReplaceAllAlphabet | SuperHeroDirectory/App/Shared/Networking/Request.swift:165 | every output character comes from the input or the replacement |
| Text.ReplaceAllAppend | SuperHeroDirectory/App/Shared/Networking/Request.swift:132 | replacement distributes over concatenation |
| Utf8.EncodeChar | SuperHeroDirectory/App/Shared/Networking/Request.swift:125 | one to four bytes, one exactly for ASCII, a continuation byte after the first and never before |
| Utf8.DecodeFirstEncodeChar | SuperHeroDirectory/App/Shared/Networking/Request.swift:125 | decoding the front of an encoded scalar gives that scalar and its length |
| Utf8.DecodeEncode | SuperHeroDirectory/App/Shared/Networking/Request.swift:125 | decoding the UTF-8 encoding of a string gives back the string |
| Utf8.OverlongRejected | SuperHeroDirectory/App/Shared/Networking/Request.swift:125 | the decoder rejects the overlong form C0 80 |
| Utf8.EncodeAppend | SuperHeroDirectory/App/Shared/Networking/Request.swift:125 | encoding distributes over concatenation |
| Percent.HexValueOfDigit | SuperHeroDirectory/App/Shared/Networking/Request.swift:164 | a hex digit reads back as its value |
| Percent.PercentByte | SuperHeroDirectory/App/Shared/Networking/Request.swift:164 | an escaped byte is `%` and two hex digits |
| Percent.PercentDecodeBytes | SuperHeroDirectory/App/Shared/Networking/Request.swift:164 | decoding escaped bytes gives those bytes, whatever follows |
| ListState.ViewStateEquals | SuperHeroDirectory/SearchList/State/SearchListState.swift:40-46 | two view states are equal exactly when both are `.loading` |
| ListState.ResultNotEqualToItself | SuperHeroDirectory/SearchList/State/SearchListState.swift:42-45 | a `.result` is not equal to itself |
| ListState.ViewStateEqualsSymmetricTransitive | SuperHeroDirectory/SearchList/State/SearchListState.swift:40-46 | the equality is symmetric and transitive |
| ListState.SearchListState.constructor | SuperHeroDirectory/SearchList/State/SearchListState.swift:17-22 | a new state is `.loading` with page state `.reset`, and the use case is untouched |
| ListState.SearchListState.SetPageState | SuperHeroDirectory/SearchList/State/SearchListState.swift:22-27 | assigning the page state runs setOffset for `.set` and resetOffset for `.reset` (even when the value does not change), so the page window is the one after that operation, and the view state becomes `.loading` |
| ListState.SearchListState.SetViewState | SuperHeroDirectory/SearchList/State/SearchListState.swift:21 | assigning the view state changes nothing else |
| ListPresenter.Presentables | SuperHeroDirectory/SearchList/Module/SearchListPresenter.swift:109 | one view model per hero, in order, each holding its hero |
| ListPresenter.OffsetOperationsAppend | SuperHeroDirectory/SearchList/Module/SearchListPresenter.swift:39-42 | the offset operations of a log are those of its parts, in order |
| ListPresenter.NoCallsNoOperations | SuperHeroDirectory/SearchList/Module/SearchListPresenter.swift:98-118 | view, router and completion events imply no offset operation |
| ListPresenter.NonCallsAppended | SuperHeroDirectory/SearchList/Module/SearchListPresenter.swift:98-118 | appending such events keeps the pagination history and every call's page window |
| ListPresenter.CallAppended | SuperHeroDirectory/SearchList/Module/SearchListPresenter.swift:67-96 | a use-case call adds its own offset operation and sees the window after it |
| ListPresenter.LoadingShownAfterNotice | SuperHeroDirectory/SearchList/Module/SearchListPresenter.swift:50-54 | the indicator shows what the last start or stop notice said |
| ListPresenter.LoadingShownKept | SuperHeroDirectory/SearchList/Module/SearchListPresenter.swift:50-54 | other events leave the indicator as it was |
| ListPresenter.ResponseFailuresAreDescribed | SuperHeroDirectory/SearchList/Module/SearchListPresenter.swift:113-118 | every failure from `responseObject` is shown with the `HTTPError`'s own description, never the generic text |
| ListPresenter.SearchListPresenter.constructor | SuperHeroDirectory/SearchList/Module/SearchListPresenter.swift:56-60 | a new presenter is not loading, has told the view nothing, and keeps the given use case |
| ListPresenter.SearchListPresenter.StateDidSet | SuperHeroDirectory/SearchList/Module/SearchListPresenter.swift:50-54 | every state assignment tells an attached view to start or stop loading, as the flag says |
| ListPresenter.SearchListPresenter.ValidAfterCall | SuperHeroDirectory/SearchList/Module/SearchListPresenter.swift:67-96 | the invariant holds after two notices and a call that saw the updated page |
| ListPresenter.SearchListPresenter.ValidAfterCompletion | SuperHeroDirectory/SearchList/Module/SearchListPresenter.swift:107-118 | the invariant holds after a stop notice and a view update |
| ListPresenter.SearchListPresenter.Fetch | SuperHeroDirectory/SearchList/Module/SearchListPresenter.swift:67-73 | refused while loading; otherwise sets loading, advances the offset and asks for the page after the advance |
| ListPresenter.SearchListPresenter.FetchStartingWith | SuperHeroDirectory/SearchList/Module/SearchListPresenter.swift:75-81 | refused under three characters even when idle; otherwise, loading or not, resets the offset and searches the first page |
| ListPresenter.SearchListPresenter.FetchMore | SuperHeroDirectory/SearchList/Module/SearchListPresenter.swift:83-89 | refused while loading; otherwise advances the offset and asks for the next page of the search |
| ListPresenter.SearchListPresenter.Refresh | SuperHeroDirectory/SearchList/Module/SearchListPresenter.swift:91-96 | never refused; resets the offset and reloads the first page |
| ListPresenter.SearchListPresenter.ViewDidSelect | SuperHeroDirectory/SearchList/Module/SearchListPresenter.swift:98-100 | an attached router is shown exactly the selected record; nothing else changes |
| ListPresenter.SearchListPresenter.HandleSuccess | SuperHeroDirectory/SearchList/Module/SearchListPresenter.swift:107-111 | loading stops, and the view gets one presentable per hero |
| ListPresenter.SearchListPresenter.HandleError | SuperHeroDirectory/SearchList/Module/SearchListPresenter.swift:113-118 | loading stops, and the view shows the error title with the `HTTPError` description, or the generic text for any other error |

The presenter's invariant `Valid()` holds after every method. It says:
- the pagination history is the start history followed by one offset operation per use-case call in
  the log;
- each call was passed the page window computed after its own update;
- an attached view's loading indicator agrees with `isLoading`.

`Fetch` and `FetchMore` are refused while `isLoading` is set. `fetch(startsWith:)`
(`FetchStartingWith`) and `Refresh` have no such guard; a search is refused only when its text is
shorter than `minSearchLength = 3` (SearchListPresenter.swift:121). Any completion clears the flag,
so once a search or refresh overlaps a load, the flag no longer tracks every load in flight:
after three refreshes and one completion, `Fetch` is accepted while two refreshes are still
outstanding (`Scenarios.CompletionReopensTheGuard`).

## Left out

- Networking: `URLSession`, the data task and `resume()` are not modelled. A completed task is the
  `(error, response, data)` triple that `Response` takes, and the completion is its return value,
  so it is delivered exactly once.
- Networking.AsURLRequest: `URLComponents` is not part of this model. The percent-encoded query it
  builds from the parameters is an input, and only the `+` re-escaping is modelled.
- Networking.AsURLRequest: `JSONSerialization` is not part of this model. The JSON body it produces
  (`None` when it throws) is an input.
- Networking.ResponseObject: `JSONDecoder` is not part of this model. Decoding is a `decode`
  parameter that returns a value or an error.
- Networking.WithAddedValue: header names are compared case-sensitively. Foundation compares them
  case-insensitively.
- Networking.Error: errors are classified by their domain only. `URLError` stands for every error of
  the URL loading domain, and the bridging itself is not modelled.
- Networking.Response: the forced cast `response as! HTTPURLResponse` is not modelled. The response
  is an `HTTPURLResponse` by construction.
- FormEncoding.Parameters: Swift dictionaries have no defined iteration order. The parameters are a
  sequence in iteration order, and the body lists them in that order.
- FormEncoding.ParameterValue: only strings, integers and booleans are modelled. The description of
  other `Any` values is not.
- FormEncoding.FormBodyRoundTrip: it holds only for keys made of unescaped characters, because
  `asURLRequest` writes keys without escaping them (Request.swift:124).
- FormEncoding.AddingPercentEncoding: `CharacterSet.alphanumerics` is a parameter. Its Unicode
  membership is not modelled beyond agreeing with ASCII letters and digits on ASCII; only its ASCII
  members affect the output.
- ListPresenter.SearchListPresenter.FetchStartingWith: `String.count` counts grapheme clusters.
  The model counts Unicode scalars.
- Pagination: the pagination use case and its offset arithmetic are not part of this model.
  - The model records the order of `setOffset` and `resetOffset` calls.
  - The page window is an arbitrary function of that history.
  - So the concrete offsets (0 after a reset, one page further after a set) are not stated.
- ListPresenter: the view, the router and `GetSuperheroUseCase` are not modelled as objects. Their
  calls are recorded as events.
  - The weak references are flags fixed at construction.
  - The promises are not modelled. A completion is a call to `HandleSuccess` or `HandleError`
    whenever it arrives, so overlapping loads finish in whatever order their completions are
    made.
- ListPresenter.ErrorMessage: `localizedDescription` and the localized title and generic text are
  parameters, not the localized strings.
- ListState.Promise: a promise is only an identity, because equality never looks inside `.result`.
