/**
 * The shared HTTP client: the `HttpError` every failure is normalised to, the
 * normalisation itself (`toHttpError`), the request interceptor that collapses
 * leading slashes, the response interceptor, and the `get` helper.
 * The network is not modelled: a request's raw outcome is a parameter.
 */
module Http {
  import opened Wrappers
  import opened JsValues

  /** The part of an axios request configuration the client reads. */
  datatype AxiosConfig = AxiosConfig(baseURL: Option<string>, url: Option<string>, httpMethod: Option<string>)

  /** An HTTP response as axios reports it. */
  datatype HttpResponse = HttpResponse(status: int, data: JsValue)

  /** A value thrown by a request or by the client. */
  datatype Thrown =
    | HttpErr(http: HttpError)
    /** An error for which `axios.isAxiosError` holds (its `CanceledError` included). */
    | AxiosErr(axios: AxiosError)
    /** Any other `Error` object. */
    | ErrorObj(name: string, message: string, code: Option<string>, cause: Option<Thrown>)
    /** Anything else: a string, a plain object, `null`, ... */
    | Plain(value: JsValue)

  /** `class HttpError extends Error`; its `name` is always "HttpError". */
  datatype HttpError = HttpError(message: string, status: Option<int>, code: Option<string>, data: JsValue,
                                 url: Option<string>, httpMethod: Option<string>, cause: Option<Thrown>)

  datatype AxiosError = AxiosError(name: string, message: string, code: Option<string>,
                                   response: Option<HttpResponse>, config: Option<AxiosConfig>)

  const HttpErrorName := "HttpError"
  const UnknownFailure := "Fallo de red o error desconocido."

  function OptStr(o: Option<string>): JsValue {
    match o
    case Some(s) => JStr(s)
    case None => JUndefined
  }

  /** `err?.name`. */
  function NameOf(t: Thrown): JsValue {
    match t
    case HttpErr(_) => JStr(HttpErrorName)
    case AxiosErr(a) => JStr(a.name)
    case ErrorObj(name, _, _, _) => JStr(name)
    case Plain(v) => Prop(v, "name")
  }

  /** `err?.message`. */
  function MessageOf(t: Thrown): JsValue {
    match t
    case HttpErr(e) => JStr(e.message)
    case AxiosErr(a) => JStr(a.message)
    case ErrorObj(_, message, _, _) => JStr(message)
    case Plain(v) => Prop(v, "message")
  }

  /** `err?.code`. */
  function CodeOf(t: Thrown): JsValue {
    match t
    case HttpErr(e) => OptStr(e.code)
    case AxiosErr(a) => OptStr(a.code)
    case ErrorObj(_, _, code, _) => OptStr(code)
    case Plain(v) => Prop(v, "code")
  }

  /** `Boolean(err)`: error objects are always truthy. */
  predicate ThrownTruthy(t: Thrown) {
    !t.Plain? || Truthy(t.value)
  }

  /** `typeof err === "object" && err !== null`. */
  predicate ThrownIsObject(t: Thrown) {
    !t.Plain? || IsObject(t.value)
  }

  /** `isHttpError`: `err instanceof HttpError`. */
  predicate IsHttpError(t: Thrown) {
    t.HttpErr?
  }

  /** `if (params.cause) this.cause = params.cause`. */
  function CauseIfTruthy(t: Thrown): (r: Option<Thrown>)
    ensures r.Some? <==> ThrownTruthy(t)
    ensures r.Some? ==> r.value == t
  {
    if ThrownTruthy(t) then Some(t) else None
  }

  /** The first truthy value of a `||` chain, or the last one. */
  function FirstTruthy(vs: seq<JsValue>): JsValue
    requires vs != []
  {
    if |vs| == 1 || Truthy(vs[0]) then vs[0] else FirstTruthy(vs[1..])
  }

  lemma FirstTruthyTwo(a: JsValue, b: JsValue)
    ensures FirstTruthy([a, b]) == if Truthy(a) then a else b
  {
    assert [a, b][1..] == [b];
  }

  lemma FirstTruthyThree(a: JsValue, b: JsValue, c: JsValue)
    ensures FirstTruthy([a, b, c]) == if Truthy(a) then a else if Truthy(b) then b else c
  {
    assert [a, b, c][1..] == [b, c];
    FirstTruthyTwo(b, c);
  }

  /** The message built when neither the server nor axios supplies one. */
  function FallbackHttpMessage(status: Option<int>, httpMethod: string, url: string): string {
    "Error HTTP" + (if status.Some? && status.value != 0 then " " + IntToString(status.value) else "")
    + " en " + httpMethod + " " + url
  }

  /** The URL an axios error refers to: `(baseURL ?? "") + (url ?? fallbackUrl ?? "")`. */
  function AxiosUrl(config: Option<AxiosConfig>, fallbackUrl: Option<string>): (r: string)
    ensures config.None? ==> r == fallbackUrl.GetOr("")
    ensures config.Some? && config.value.url.Some? ==> r == config.value.baseURL.GetOr("") + config.value.url.value
    ensures config.Some? && config.value.url.None? ==> r == config.value.baseURL.GetOr("") + fallbackUrl.GetOr("")
  {
    var base := if config.Some? then config.value.baseURL.GetOr("") else "";
    var url := if config.Some? && config.value.url.Some? then config.value.url.value else fallbackUrl.GetOr("");
    base + url
  }

  /** The method an axios error refers to, upper-cased; "GET" by default. */
  function AxiosMethod(config: Option<AxiosConfig>, fallbackMethod: Option<string>): (r: string)
    ensures config.Some? && config.value.httpMethod.Some? ==> r == ToUpper(config.value.httpMethod.value)
    ensures !(config.Some? && config.value.httpMethod.Some?) && fallbackMethod.Some? ==> r == ToUpper(fallbackMethod.value)
    ensures !(config.Some? && config.value.httpMethod.Some?) && fallbackMethod.None? ==> r == "GET"
  {
    assert ToUpper("GET") == "GET";
    ToUpper(if config.Some? && config.value.httpMethod.Some? then config.value.httpMethod.value
            else fallbackMethod.GetOr("GET"))
  }

  /** The message the server sent: a non-empty string body, else `data.message`,
      else `data.error`. */
  function ServerMessage(data: JsValue): JsValue {
    FirstTruthy([if data.JStr? && data.s != "" then data else JBool(false),
                 Prop(data, "message"), Prop(data, "error")])
  }

  /** `toHttpError`. An `HttpError` passes through unchanged; an axios error is
      rebuilt from its response and configuration; anything else becomes an
      `HttpError` carrying the fallbacks and, when it has a truthy `message`,
      that message. */
  function ToHttpError(err: Thrown, fallbackUrl: Option<string>, fallbackMethod: Option<string>): (r: HttpError)
    ensures err.HttpErr? ==> r == err.http
    ensures err.Plain? || err.ErrorObj? ==> r.url == fallbackUrl && r.httpMethod == fallbackMethod
    ensures err.Plain? || err.ErrorObj? ==> r.cause == CauseIfTruthy(err)
    ensures err.Plain? || err.ErrorObj? ==> r.status.None? && r.code.None? && r.data == JUndefined
    ensures err.AxiosErr? ==> r.url == Some(AxiosUrl(err.axios.config, fallbackUrl))
                              && r.cause == Some(err) && r.code == err.axios.code
    ensures err.AxiosErr? ==> r.httpMethod == Some(AxiosMethod(err.axios.config, fallbackMethod))
    ensures err.AxiosErr? ==> r.status == (if err.axios.response.Some? then Some(err.axios.response.value.status) else None)
                              && r.data == (if err.axios.response.Some? then err.axios.response.value.data else JUndefined)
  {
    match err
    case HttpErr(e) => e
    case AxiosErr(ax) =>
      var status := if ax.response.Some? then Some(ax.response.value.status) else None;
      var data := if ax.response.Some? then ax.response.value.data else JUndefined;
      var url := AxiosUrl(ax.config, fallbackUrl);
      var verb := AxiosMethod(ax.config, fallbackMethod);
      var message := FirstTruthy([ServerMessage(data), JStr(ax.message),
                                  JStr(FallbackHttpMessage(status, verb, url))]);
      HttpError(ToJsString(message), status, ax.code, data, Some(url), Some(verb), Some(err))
    case _ =>
      var unknownMessage := FirstTruthy([MessageOf(err), JStr(UnknownFailure)]);
      HttpError(ToJsString(unknownMessage), None, None, JUndefined, fallbackUrl, fallbackMethod, CauseIfTruthy(err))
  }

  /** Normalising twice is normalising once: the result is already an `HttpError`. */
  lemma ToHttpErrorIdempotent(err: Thrown, u1: Option<string>, m1: Option<string>, u2: Option<string>, m2: Option<string>)
    ensures ToHttpError(HttpErr(ToHttpError(err, u1, m1)), u2, m2) == ToHttpError(err, u1, m1)
  {
  }

  /** An axios error's message prefers a non-empty string body, then the
      server's `message` / `error` fields, then axios' own message, then the
      built-in description. */
  lemma AxiosMessagePriority(ax: AxiosError, u: Option<string>, m: Option<string>)
    ensures var data := if ax.response.Some? then ax.response.value.data else JUndefined;
            var msg := ToHttpError(AxiosErr(ax), u, m).message;
            (data.JStr? && data.s != "" ==> msg == data.s)
            && (!Truthy(ServerMessage(data)) && ax.message != "" ==> msg == ax.message)
            && (!Truthy(ServerMessage(data)) && ax.message == ""
                ==> msg == FallbackHttpMessage(if ax.response.Some? then Some(ax.response.value.status) else None,
                                               AxiosMethod(ax.config, m), AxiosUrl(ax.config, u)))
  {
    var data := if ax.response.Some? then ax.response.value.data else JUndefined;
    var status := if ax.response.Some? then Some(ax.response.value.status) else None;
    FirstTruthyThree(if data.JStr? && data.s != "" then data else JBool(false), Prop(data, "message"), Prop(data, "error"));
    FirstTruthyThree(ServerMessage(data), JStr(ax.message),
                     JStr(FallbackHttpMessage(status, AxiosMethod(ax.config, m), AxiosUrl(ax.config, u))));
  }

  /** A server `message` that is a non-empty string wins over axios' message
      whenever the body is not itself a non-empty string. */
  lemma ServerMessageField(ax: AxiosError, u: Option<string>, m: Option<string>, text: string)
    requires ax.response.Some? && !ax.response.value.data.JStr?
    requires Prop(ax.response.value.data, "message") == JStr(text) && text != ""
    ensures ToHttpError(AxiosErr(ax), u, m).message == text
  {
    var data := ax.response.value.data;
    FirstTruthyThree(JBool(false), Prop(data, "message"), Prop(data, "error"));
    FirstTruthyThree(ServerMessage(data), JStr(ax.message),
                     JStr(FallbackHttpMessage(Some(ax.response.value.status), AxiosMethod(ax.config, m), AxiosUrl(ax.config, u))));
  }

  /** Without a truthy `message`, a server `error` that is a non-empty string
      wins over axios' message. */
  lemma ServerErrorField(ax: AxiosError, u: Option<string>, m: Option<string>, text: string)
    requires ax.response.Some? && !ax.response.value.data.JStr?
    requires !Truthy(Prop(ax.response.value.data, "message"))
    requires Prop(ax.response.value.data, "error") == JStr(text) && text != ""
    ensures ToHttpError(AxiosErr(ax), u, m).message == text
  {
    var data := ax.response.value.data;
    FirstTruthyThree(JBool(false), Prop(data, "message"), Prop(data, "error"));
    FirstTruthyThree(ServerMessage(data), JStr(ax.message),
                     JStr(FallbackHttpMessage(Some(ax.response.value.status), AxiosMethod(ax.config, m), AxiosUrl(ax.config, u))));
  }

  /** The method of an axios error carries no lower-case ASCII letter. */
  lemma AxiosMethodUpper(config: Option<AxiosConfig>, fallbackMethod: Option<string>)
    ensures forall i :: 0 <= i < |AxiosMethod(config, fallbackMethod)| ==>
              !('a' <= AxiosMethod(config, fallbackMethod)[i] <= 'z')
  {
  }

  /** A value without a truthy `message` gets the generic network message. */
  lemma UnknownErrorMessage(err: Thrown, u: Option<string>, m: Option<string>)
    requires err.Plain? || err.ErrorObj?
    ensures !Truthy(MessageOf(err)) ==> ToHttpError(err, u, m).message == UnknownFailure
    ensures MessageOf(err).JStr? && MessageOf(err).s != "" ==> ToHttpError(err, u, m).message == MessageOf(err).s
  {
    FirstTruthyTwo(MessageOf(err), JStr(UnknownFailure));
  }

  // ---------------------------------------------------------------------------
  // The client

  const DefaultTimeoutMs := 10000

  /** A request configuration, which the request interceptor edits in place. */
  class RequestConfig {
    var baseURL: Option<string>
    var url: Option<string>
    var httpMethod: Option<string>

    constructor (baseURL: Option<string>, url: Option<string>, httpMethod: Option<string>)
      ensures this.baseURL == baseURL && this.url == url && this.httpMethod == httpMethod
    {
      this.baseURL := baseURL;
      this.url := url;
      this.httpMethod := httpMethod;
    }

    function Snapshot(): AxiosConfig
      reads this
    {
      AxiosConfig(baseURL, url, httpMethod)
    }
  }

  /** `s.replace(/^\/+/, "")`. */
  function StripLeadingSlashes(s: string): (r: string)
    ensures r == [] || r[0] != '/'
    ensures |r| <= |s| && r == s[|s| - |r|..]
    ensures forall i :: 0 <= i < |s| - |r| ==> s[i] == '/'
  {
    if s != [] && s[0] == '/' then StripLeadingSlashes(s[1..]) else s
  }

  /** The URL after the request interceptor: with a truthy `baseURL`, a leading
      run of slashes collapses to one and everything after it is kept; without
      one, or for a URL that is absent, empty or not starting with a slash,
      nothing changes. */
  function InterceptedUrl(baseURL: Option<string>, url: Option<string>): (r: Option<string>)
    ensures baseURL.None? || baseURL == Some("") ==> r == url
    ensures url.None? || url == Some("") || url.value[0] != '/' ==> r == url
    ensures baseURL.Some? && baseURL.value != "" && url.Some? && url.value != "" && url.value[0] == '/' ==>
              r.Some? && r.value != [] && r.value[0] == '/' && (|r.value| == 1 || r.value[1] != '/')
              && r.value[1..] == StripLeadingSlashes(url.value)
              && (forall i :: 0 <= i < |url.value| - |r.value| + 1 ==> url.value[i] == '/')
  {
    if url.None? || url.value == "" then url
    else if baseURL.Some? && baseURL.value != "" && url.value[0] == '/' then
      Some("/" + StripLeadingSlashes(url.value))
    else url
  }

  /** The request interceptor. */
  method InterceptRequest(config: RequestConfig)
    modifies config
    ensures config.url == InterceptedUrl(old(config.baseURL), old(config.url))
    ensures config.baseURL == old(config.baseURL) && config.httpMethod == old(config.httpMethod)
  {
    if config.url.None? || config.url.value == "" {
      return;
    }
    if config.baseURL.Some? && config.baseURL.value != "" && config.url.value[0] == '/' {
      config.url := Some("/" + StripLeadingSlashes(config.url.value));
    }
  }

  /** Stripping the leading slashes of a URL that already starts with
      exactly one slash left by the interceptor gives the same rest. */
  lemma StripCollapsed(u: string)
    ensures StripLeadingSlashes("/" + StripLeadingSlashes(u)) == StripLeadingSlashes(u)
  {
    var r := "/" + StripLeadingSlashes(u);
    assert r[1..] == StripLeadingSlashes(u);
  }

  /** The interceptor is idempotent. */
  lemma InterceptedUrlIdempotent(baseURL: Option<string>, url: Option<string>)
    ensures InterceptedUrl(baseURL, InterceptedUrl(baseURL, url)) == InterceptedUrl(baseURL, url)
  {
    if url.Some? && url.value != "" && baseURL.Some? && baseURL.value != "" && url.value[0] == '/' {
      StripCollapsed(url.value);
    }
  }

  /** The response interceptor: every failure leaves the client as an
      `HttpError` built without fallbacks. */
  function ResponseInterceptor(outcome: Result<HttpResponse, Thrown>): (r: Result<HttpResponse, Thrown>)
    ensures r.Err? ==> r.error.HttpErr?
    ensures r.Ok? <==> outcome.Ok?
  {
    match outcome
    case Ok(res) => Ok(res)
    case Err(e) => Err(HttpErr(ToHttpError(e, None, None)))
  }

  /** `get(url)`: the response body, or the failure normalised with `url`
      and "GET" as fallbacks. `raw` is the request's outcome before the
      response interceptor. */
  function Get(url: string, raw: Result<HttpResponse, Thrown>): (r: Result<JsValue, HttpError>)
    ensures raw.Ok? ==> r == Ok(raw.value.data)
  {
    match ResponseInterceptor(raw)
    case Ok(res) => Ok(res.data)
    case Err(e) => Err(ToHttpError(e, Some(url), Some("GET")))
  }

  /** Because the response interceptor already normalised the failure, the
      fallbacks `get` passes are never used: the error is exactly the one the
      interceptor built. */
  lemma GetIgnoresFallbacks(url: string, raw: Result<HttpResponse, Thrown>)
    requires raw.Err?
    ensures Get(url, raw) == Err(ToHttpError(raw.error, None, None))
    ensures (raw.error.Plain? || raw.error.ErrorObj?) ==> Get(url, raw).error.url == None
  {
  }
}
