/**
 * SuperHeroDirectory's `Request`: how a request description becomes a wire request (method
 * string, headers, body or query) and how the outcome of the round trip (transport error,
 * status, data) becomes a success or one of the `HTTPError` kinds.
 * The round trip itself is not modelled: its outcome is an input.
 */
module Networking {
  import opened Wrappers
  import opened Utf8
  import FormEncoding

  // ---------------------------------------------------------------------------------------------
  // Request descriptions

  datatype Encoding = Json | Url

  datatype HTTPMethod = Get | Post(encoding: Encoding)

  /** `HTTPMethod.value`: the method token on the wire; the encoding does not show in it. */
  function MethodValue(m: HTTPMethod): (token: string)
    ensures token == "GET" <==> m.Get?
    ensures token == "POST" <==> m.Post?
  {
    match m
    case Get => "GET"
    case Post(_) => "POST"
  }

  type Data = seq<byte>

  type HTTPHeaders = map<string, string>

  /** A URL as the part before the query and the percent-encoded query, if there is one. */
  datatype URL = URL(base: string, query: Option<string>)

  /** The `Request` struct: what the use cases ask for. */
  datatype Request = Request(
    url: URL,
    httpMethod: HTTPMethod,
    parameters: Option<FormEncoding.Parameters>,
    headers: Option<HTTPHeaders>)

  // ---------------------------------------------------------------------------------------------
  // The wire request

  /**
   * `addValue(_:forHTTPHeaderField:)`: a field not yet present gets the value; a present one gets
   * it appended after a comma. Other fields are left alone.
   */
  function WithAddedValue(headers: HTTPHeaders, field: string, value: string): (r: HTTPHeaders)
    ensures field in r
    ensures field !in headers ==> r[field] == value
    ensures field in headers ==> r[field] == headers[field] + "," + value
    ensures forall f :: f != field ==> (f in r <==> f in headers)
    ensures forall f :: f != field && f in headers ==> r[f] == headers[f]
  {
    headers[field := if field in headers then headers[field] + "," + value else value]
  }

  /** Foundation's `URLRequest`, reduced to the parts the app sets. */
  class URLRequest {
    var url: URL
    var allHTTPHeaderFields: HTTPHeaders
    var httpBody: Option<Data>
    var httpMethod: string

    /** `URLRequest(url:)`: no header fields, no body, method GET. */
    constructor (url: URL)
      ensures this.url == url
      ensures allHTTPHeaderFields == map[] && httpBody == None && httpMethod == "GET"
    {
      this.url := url;
      allHTTPHeaderFields := map[];
      httpBody := None;
      httpMethod := "GET";
    }

    method AddValue(value: string, field: string)
      modifies this
      ensures allHTTPHeaderFields == WithAddedValue(old(allHTTPHeaderFields), field, value)
      ensures url == old(url) && httpBody == old(httpBody) && httpMethod == old(httpMethod)
    {
      allHTTPHeaderFields := WithAddedValue(allHTTPHeaderFields, field, value);
    }
  }

  const JsonMediaType := "application/json"
  const FormMediaType := "application/x-www-form-urlencoded"

  /** The `Content-Type` a POST announces for its encoding. */
  function ContentType(encoding: Encoding): string
  {
    match encoding
    case Json => JsonMediaType
    case Url => FormMediaType
  }

  /** The header fields of the wire request: the caller's, then Accept, then Content-Type for a POST. */
  function WireHeaders(request: Request): HTTPHeaders
  {
    var given := match request.headers case None => map[] case Some(h) => h;
    var accepting := WithAddedValue(given, "Accept", JsonMediaType);
    match request.httpMethod
    case Get => accepting
    case Post(encoding) => WithAddedValue(accepting, "Content-Type", ContentType(encoding))
  }

  /**
   * The body of the wire request. `jsonBody` is what `JSONSerialization` makes of the parameters
   * (`None` when it throws); a url-encoded body is the UTF-8 of the form fields.
   */
  function WireBody(request: Request, alphanumerics: FormEncoding.CharacterSet, jsonBody: Option<Data>): Option<Data>
  {
    match request.parameters
    case None => None
    case Some(parameters) =>
      match request.httpMethod
      case Get => None
      case Post(Json) => jsonBody
      case Post(Url) => Some(Encode(FormEncoding.FormBody(parameters, alphanumerics)))
  }

  /**
   * The URL of the wire request. For a GET with parameters, `encodedQuery` is the query that
   * `URLComponents` encodes from them, and it is sent with each `+` re-escaped.
   */
  function WireURL(request: Request, encodedQuery: Option<string>): URL
  {
    if request.parameters.Some? && request.httpMethod.Get? then
      URL(request.url.base, FormEncoding.PlusEscapedQuery(encodedQuery))
    else request.url
  }

  /** `asURLRequest()`, step by step as the source builds it. */
  method AsURLRequest(
    request: Request,
    alphanumerics: FormEncoding.CharacterSet,
    jsonBody: Option<Data>,
    encodedQuery: Option<string>)
    returns (wire: URLRequest)
    ensures fresh(wire)
    ensures wire.allHTTPHeaderFields == WireHeaders(request)
    ensures wire.httpBody == WireBody(request, alphanumerics, jsonBody)
    ensures wire.url == WireURL(request, encodedQuery)
    ensures wire.httpMethod == MethodValue(request.httpMethod)
  {
    wire := new URLRequest(request.url);
    wire.allHTTPHeaderFields := match request.headers case None => map[] case Some(h) => h;
    wire.AddValue(JsonMediaType, "Accept");
    if request.httpMethod.Post? {
      match request.httpMethod.encoding
      case Json => wire.AddValue(JsonMediaType, "Content-Type");
      case Url => wire.AddValue(FormMediaType, "Content-Type");
    }
    if request.parameters.Some? {
      var parameters := request.parameters.value;
      match request.httpMethod
      case Post(Json) =>
        wire.httpBody := jsonBody;
      case Post(Url) =>
        wire.httpBody := Some(Encode(FormEncoding.FormBody(parameters, alphanumerics)));
      case Get =>
        wire.url := URL(request.url.base, FormEncoding.PlusEscapedQuery(encodedQuery));
    }
    wire.httpMethod := MethodValue(request.httpMethod);
  }

  /** `Accept: application/json` is always sent, after any Accept value of the caller's. */
  lemma AlwaysAcceptsJson(request: Request)
    ensures "Accept" in WireHeaders(request)
    ensures var given := match request.headers case None => map[] case Some(h) => h;
      WireHeaders(request)["Accept"]
        == if "Accept" in given then given["Accept"] + "," + JsonMediaType else JsonMediaType
  {
  }

  /**
   * Only a POST adds a `Content-Type`, naming its encoding's media type after any value of the
   * caller's; a GET sends one only if the caller gave one, and then unchanged.
   */
  lemma ContentTypeOnlyForPost(request: Request)
    ensures var given := match request.headers case None => map[] case Some(h) => h;
      ("Content-Type" in WireHeaders(request) <==> request.httpMethod.Post? || "Content-Type" in given)
      && (request.httpMethod.Get? && "Content-Type" in given ==>
            WireHeaders(request)["Content-Type"] == given["Content-Type"])
      && (request.httpMethod.Post? ==>
            WireHeaders(request)["Content-Type"]
              == if "Content-Type" in given
                 then given["Content-Type"] + "," + ContentType(request.httpMethod.encoding)
                 else ContentType(request.httpMethod.encoding))
  {
  }

  /** The caller's other header fields reach the wire unchanged, and no other field is added. */
  lemma OtherHeadersKept(request: Request, field: string)
    requires field != "Accept" && field != "Content-Type"
    ensures var given := match request.headers case None => map[] case Some(h) => h;
      (field in WireHeaders(request) <==> field in given) &&
      (field in given ==> WireHeaders(request)[field] == given[field])
  {
  }

  /** Without parameters neither the URL nor the body is touched. */
  lemma NoParametersNoChange(request: Request, alphanumerics: FormEncoding.CharacterSet,
                             jsonBody: Option<Data>, encodedQuery: Option<string>)
    requires request.parameters.None?
    ensures WireURL(request, encodedQuery) == request.url
    ensures WireBody(request, alphanumerics, jsonBody) == None
  {
  }

  /** A GET sends its parameters only in the query, and the query it sends holds no `+`. */
  lemma GetParametersOnlyInQuery(request: Request, alphanumerics: FormEncoding.CharacterSet,
                                 jsonBody: Option<Data>, encodedQuery: Option<string>)
    requires request.httpMethod.Get?
    ensures WireBody(request, alphanumerics, jsonBody) == None
    ensures WireURL(request, encodedQuery).base == request.url.base
    ensures request.parameters.Some? ==> WireURL(request, encodedQuery).query.Some? == encodedQuery.Some?
    ensures request.parameters.Some? && encodedQuery.Some? ==> '+' !in WireURL(request, encodedQuery).query.value
  {
  }

  /**
   * The body of a url-encoded POST is UTF-8 text that parses back to the parameters, when the
   * (unescaped) keys are plain.
   */
  lemma UrlEncodedBodyRoundTrip(request: Request, alphanumerics: FormEncoding.CharacterSet, jsonBody: Option<Data>)
    requires request.httpMethod == Post(Url) && request.parameters.Some?
    requires FormEncoding.AgreesWithAscii(alphanumerics)
    requires forall i :: 0 <= i < |request.parameters.value| ==>
      FormEncoding.IsPlainKey(request.parameters.value[i].0, alphanumerics)
    ensures WireBody(request, alphanumerics, jsonBody).Some?
    ensures var text := Decode(WireBody(request, alphanumerics, jsonBody).value);
      text.Some? && FormEncoding.ParseForm(text.value) == FormEncoding.SentPairs(request.parameters.value)
  {
    var body := FormEncoding.FormBody(request.parameters.value, alphanumerics);
    DecodeEncode(body);
    FormEncoding.FormBodyRoundTrip(request.parameters.value, alphanumerics);
  }

  // ---------------------------------------------------------------------------------------------
  // Errors and the classification of a response

  datatype HTTPURLResponse = HTTPURLResponse(statusCode: int)

  /**
   * The errors that reach the app. `URLError` stands for every error of the URL loading system's
   * domain (`NSURLErrorDomain`), which Swift bridges to `URLError` under `as? URLError`;
   * `OtherError` is an error of any other domain.
   */
  datatype Error =
    | URLError(code: int)
    | HTTP(kind: HTTPError)
    | OtherError(domain: string, code: int)

  datatype HTTPError =
    | Unreachable
    | ClientError(underlying: Error)
    | ServerError(response: HTTPURLResponse)
    | NoData
    | DecodingError(underlying: Error)

  // Foundation's `URLError.Code` raw values
  const TimedOut := -1001
  const CannotFindHost := -1003
  const CannotConnectToHost := -1004
  const NetworkConnectionLost := -1005
  const DnsLookupFailed := -1006
  const NotConnectedToInternet := -1009

  /** The URL loading errors that mean the server cannot be reached. */
  const UnreachableCodes: set<int> :=
    {TimedOut, CannotFindHost, NetworkConnectionLost, DnsLookupFailed, NotConnectedToInternet, CannotConnectToHost}

  /**
   * `converted(_:)`: the six "cannot reach the server" URL errors become `unreachable`; every
   * other error, a non-URL one included, becomes `clientError` wrapping the original.
   */
  function Converted(error: Error): (r: Error)
    ensures r.HTTP?
    ensures r == HTTP(Unreachable) <==> error.URLError? && error.code in UnreachableCodes
    ensures r != HTTP(Unreachable) ==> r == HTTP(ClientError(error))
  {
    match error
    case URLError(code) =>
      if code == TimedOut || code == CannotFindHost || code == NetworkConnectionLost
         || code == DnsLookupFailed || code == NotConnectedToInternet || code == CannotConnectToHost
      then HTTP(Unreachable)
      else HTTP(ClientError(error))
    case _ => HTTP(ClientError(error))
  }

  /** The 2xx (Successful) class of section 15.3 of RFC 9110. */
  predicate IsSuccessStatus(statusCode: int)
  {
    200 <= statusCode <= 299
  }

  /**
   * `response(_:)` without the round trip: what the completion of the data task receives for a
   * transport error (if any), the HTTP response and the data (if any). It succeeds exactly for a
   * 2xx status with data, with that data, and every failure is an `HTTPError`.
   */
  function Response(error: Option<Error>, response: HTTPURLResponse, data: Option<Data>): (r: Result<Data, Error>)
    ensures r.Success? <==> error.None? && IsSuccessStatus(response.statusCode) && data.Some?
    ensures r.Success? ==> r.value == data.value
    ensures r.Failure? ==> r.error.HTTP?
  {
    match error
    case Some(e) => Failure(Converted(e))
    case None =>
      if IsSuccessStatus(response.statusCode) then
        (match data
         case Some(d) => Success(d)
         case None => Failure(HTTP(NoData)))
      else Failure(HTTP(ServerError(response)))
  }

  /** A transport error decides the outcome, whatever the status and the data. */
  lemma TransportErrorDecides(e: Error, r1: HTTPURLResponse, d1: Option<Data>, r2: HTTPURLResponse, d2: Option<Data>)
    ensures Response(Some(e), r1, d1) == Response(Some(e), r2, d2) == Failure(Converted(e))
  {
  }

  /** Without a transport error: 2xx with data succeeds with that data, 2xx without is `noData`. */
  lemma SuccessfulStatus(response: HTTPURLResponse, data: Option<Data>)
    requires IsSuccessStatus(response.statusCode)
    ensures data.Some? ==> Response(None, response, data) == Success(data.value)
    ensures data.None? ==> Response(None, response, data) == Failure(HTTP(NoData))
  {
  }

  /** Without a transport error, any status outside 2xx is a `serverError`, data or not. */
  lemma UnsuccessfulStatus(response: HTTPURLResponse, data: Option<Data>)
    requires !IsSuccessStatus(response.statusCode)
    ensures Response(None, response, data) == Failure(HTTP(ServerError(response)))
  {
  }

  /**
   * `responseObject(_:)`: the single outcome its completion receives, with `decode` standing for
   * `JSONDecoder().decode` (a failure carries the decoder's error). It succeeds exactly when the
   * response succeeds and its data decodes, with the decoded model, and every failure is an
   * `HTTPError`.
   */
  function ResponseObject<T>(error: Option<Error>, response: HTTPURLResponse, data: Option<Data>,
                             decode: Data -> Result<T, Error>): (r: Result<T, Error>)
    ensures r.Success? <==> Response(error, response, data).Success? && decode(data.value).Success?
    ensures r.Success? ==> r.value == decode(data.value).value
    ensures r.Failure? ==> r.error.HTTP?
  {
    match Response(error, response, data)
    case Success(d) =>
      (match decode(d)
       case Success(model) => Success(model)
       case Failure(e) => Failure(HTTP(DecodingError(e))))
    case Failure(e) => Failure(e)
  }

  /** A body that does not decode becomes `decodingError` wrapping the decoder's error. */
  lemma UndecodableIsDecodingError<T>(response: HTTPURLResponse, d: Data, decode: Data -> Result<T, Error>)
    requires IsSuccessStatus(response.statusCode) && decode(d).Failure?
    ensures ResponseObject(None, response, Some(d), decode) == Failure(HTTP(DecodingError(decode(d).error)))
  {
  }

  /** A failure of the response is passed on unchanged. */
  lemma UpstreamFailurePassedOn<T>(error: Option<Error>, response: HTTPURLResponse, data: Option<Data>,
                                   decode: Data -> Result<T, Error>)
    requires Response(error, response, data).Failure?
    ensures ResponseObject(error, response, data, decode) == Failure(Response(error, response, data).error)
  {
  }
}
