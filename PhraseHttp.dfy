/**
 * The HTTP implementation of the phrase API: one `list` operation that fetches
 * the remote listing, maps it to phrases, orders it newest first, and turns
 * every failure into either an `AbortError` or an `Error` with a readable,
 * prefixed message.
 */
module PhraseHttp {
  import opened Wrappers
  import opened JsValues
  import opened Phrases
  import opened Mappers
  import opened Http

  const DefaultPath := "/data"
  const AbortMessage := "Operación cancelada por el solicitante."
  const ListFailure := "No se pudo obtener el listado de frases."

  /** `isAbortLike`: a truthy object whose `code` is "ERR_CANCELED" or whose
      `name` is "CanceledError" or "AbortError". An `HttpError` is abort-like
      exactly when it keeps the code "ERR_CANCELED"; a primitive never is. */
  predicate IsAbortLike(err: Thrown): (b: bool)
    ensures err.HttpErr? ==> (b <==> err.http.code == Some("ERR_CANCELED"))
    ensures err.ErrorObj? ==> (b <==> err.code == Some("ERR_CANCELED") || err.name == "CanceledError"
                                      || err.name == "AbortError")
    ensures err.AxiosErr? ==> (b <==> err.axios.code == Some("ERR_CANCELED") || err.axios.name == "CanceledError"
                                      || err.axios.name == "AbortError")
    ensures err.Plain? && !IsObject(err.value) ==> !b
  {
    ThrownTruthy(err) && ThrownIsObject(err)
    && (CodeOf(err) == JStr("ERR_CANCELED") || NameOf(err) == JStr("CanceledError")
        || NameOf(err) == JStr("AbortError"))
  }

  /** `createAbortError(cause)`. */
  function CreateAbortError(cause: Option<Thrown>): (r: Thrown)
    ensures r.ErrorObj? && r.name == "AbortError" && r.message == AbortMessage
    ensures r.cause.Some? <==> cause.Some? && ThrownTruthy(cause.value)
    ensures r.cause.Some? ==> r.cause == cause
    ensures IsAbortLike(r)
  {
    ErrorObj("AbortError", AbortMessage, None,
             if cause.Some? && ThrownTruthy(cause.value) then cause else None)
  }

  /** The readable part of an error: a non-empty string `message`, or the
      thrown value itself when it is a non-empty string. */
  function MessageBase(err: Thrown): (r: Option<string>)
    ensures r.Some? ==> r.value != ""
    ensures r.Some? <==> (MessageOf(err).JStr? && MessageOf(err).s != "")
                         || (err.Plain? && err.value.JStr? && err.value.s != "")
  {
    if MessageOf(err).JStr? && MessageOf(err).s != "" then Some(MessageOf(err).s)
    else if err.Plain? && err.value.JStr? && err.value.s != "" then Some(err.value.s)
    else None
  }

  /** `toMessage(err, fallback)`. */
  function ToMessage(err: Thrown, fallback: string): (r: string)
    ensures MessageBase(err).None? ==> r == fallback
    ensures MessageBase(err).Some? && Contains(MessageBase(err).value, fallback) ==> r == MessageBase(err).value
    ensures MessageBase(err).Some? && !Contains(MessageBase(err).value, fallback)
            ==> r == fallback + " " + MessageBase(err).value
  {
    match MessageBase(err)
    case None => fallback
    case Some(base) => if Contains(base, fallback) then base else fallback + " " + base
  }

  /** The message always mentions the fallback. */
  lemma ToMessageContainsFallback(err: Thrown, fallback: string)
    ensures Contains(ToMessage(err, fallback), fallback)
  {
    var r := ToMessage(err, fallback);
    if MessageBase(err).None? || !Contains(MessageBase(err).value, fallback) {
      assert IsPrefix(fallback, r);
    }
  }

  /** Wrapping an already wrapped message changes nothing: the prefix is never
      repeated. */
  lemma ToMessageIdempotent(err: Thrown, fallback: string)
    ensures ToMessage(ErrorObj("Error", ToMessage(err, fallback), None, None), fallback) == ToMessage(err, fallback)
  {
    ToMessageContainsFallback(err, fallback);
  }

  /** A message shorter than the fallback is prefixed with it. */
  lemma ToMessageShortMessage(message: string, fallback: string)
    requires message != "" && |message| < |fallback|
    ensures ToMessage(ErrorObj("Error", message, None, None), fallback) == fallback + " " + message
  {
    ContainsLength(message, fallback);
  }

  /** What `list` settles to, given whether the signal was already aborted and
      what `get` settled to. It resolves only when the signal was not aborted
      and `get` resolved, with a newest-first list; it rejects with an `Error`
      object, and the rejection is a cancellation exactly when the signal was
      aborted or `get` rejected with an abort-like value. */
  function ListOutcome(aborted: bool, fetched: Result<JsValue, Thrown>): (r: Result<seq<Phrase>, Thrown>)
    ensures r.Ok? <==> !aborted && fetched.Ok?
    ensures r.Ok? ==> SortedDesc(r.value)
    ensures r.Err? ==> r.error.ErrorObj? && (r.error.name == "AbortError" || r.error.name == "Error")
    ensures r.Err? ==> (IsAbortLike(r.error) <==> aborted || IsAbortLike(fetched.error))
  {
    if aborted then Err(CreateAbortError(None))
    else match fetched
      case Ok(payload) => Ok(SortByCreatedAtDesc(PhrasesOfResponse(payload)))
      case Err(e) =>
        if IsAbortLike(e) then Err(CreateAbortError(Some(e)))
        else Err(ErrorObj("Error", ToMessage(e, ListFailure), None, None))
  }

  /** A pre-aborted signal rejects with a fresh `AbortError` whatever the
      request would have returned (the request is not made). */
  lemma ListPreAborted(fetched: Result<JsValue, Thrown>, other: Result<JsValue, Thrown>)
    ensures ListOutcome(true, fetched) == ListOutcome(true, other)
    ensures ListOutcome(true, fetched) == Err(ErrorObj("AbortError", AbortMessage, None, None))
  {
  }

  /** A successful listing holds exactly the valid phrases of the payload,
      newest first, in the payload's order among equal timestamps. */
  lemma ListSucceeds(payload: JsValue)
    ensures var r := ListOutcome(false, Ok(payload));
            r.Ok? && SortedDesc(r.value)
            && multiset(r.value) == multiset(PhrasesOfResponse(payload))
            && (forall p :: p in r.value ==> Normalized(p))
            && (forall ms :: CreatedAt(r.value, ms) == CreatedAt(PhrasesOfResponse(payload), ms))
  {
    var ps := PhrasesOfResponse(payload);
    PhrasesOfResponseValid(payload);
    forall p | p in SortByCreatedAtDesc(ps) ensures Normalized(p) {
      assert p in multiset(SortByCreatedAtDesc(ps));
    }
    forall ms ensures CreatedAt(SortByCreatedAtDesc(ps), ms) == CreatedAt(ps, ms) {
      SortStable(ps, ms);
    }
  }

  /** A failure is either a cancellation, reported as an `AbortError` that keeps
      the original as its cause, or an `Error` whose message mentions the
      listing failure. */
  lemma ListFails(e: Thrown)
    ensures IsAbortLike(e) ==> ListOutcome(false, Err(e)) == Err(ErrorObj("AbortError", AbortMessage, None, Some(e)))
    ensures !IsAbortLike(e) ==> var r := ListOutcome(false, Err(e));
              r.Err? && r.error.ErrorObj? && r.error.name == "Error"
              && Contains(r.error.message, ListFailure) && !IsAbortLike(r.error)
  {
    ToMessageContainsFallback(e, ListFailure);
  }

  /** A failure that is not abort-like becomes a plain `Error` carrying the
      prefixed message. */
  lemma ListOtherError(e: Thrown)
    requires !IsAbortLike(e)
    ensures ListOutcome(false, Err(e)) == Err(ErrorObj("Error", ToMessage(e, ListFailure), None, None))
  {
  }

  /** `get` rejecting with a plain `{ name: "CanceledError" }` yields an `AbortError`. */
  lemma ListCanceledObject()
    ensures var e := Plain(JObject([Member("name", JStr("CanceledError"))]));
            ListOutcome(false, Err(e)) == Err(CreateAbortError(Some(e)))
  {
    var fields := [Member("name", JStr("CanceledError"))];
    assert Lookup(fields, "name") == JStr("CanceledError");
  }

  /** A generic `Error` with a short message, such as "Falla servidor X", is
      reported with the listing prefix in front of its message. */
  lemma ListGenericError(message: string)
    requires message != "" && |message| < |ListFailure|
    ensures ListOutcome(false, Err(ErrorObj("Error", message, None, None)))
            == Err(ErrorObj("Error", ListFailure + " " + message, None, None))
  {
    ToMessageShortMessage(message, ListFailure);
  }

  /** An error that already carries the prefix keeps its message. */
  lemma ListPrefixedError(detail: string)
    ensures var message := ListFailure + detail;
            ListOutcome(false, Err(ErrorObj("Error", message, None, None)))
            == Err(ErrorObj("Error", message, None, None))
  {
    var message := ListFailure + detail;
    assert IsPrefix(ListFailure, message);
  }

  /** `get`'s outcome as a settled promise. */
  function Settled(g: Result<JsValue, HttpError>): Result<JsValue, Thrown> {
    match g
    case Ok(v) => Ok(v)
    case Err(e) => Err(HttpErr(e))
  }

  /** Through the real client, a request axios cancels (code "ERR_CANCELED")
      reaches the caller as an `AbortError`, because `toHttpError` keeps the
      code. */
  lemma CanceledRequestAborts(path: string, ax: AxiosError)
    requires ax.code == Some("ERR_CANCELED")
    ensures var r := ListOutcome(false, Settled(Get(path, Err(AxiosErr(ax)))));
            r.Err? && r.error.ErrorObj? && r.error.name == "AbortError" && r.error.message == AbortMessage
  {
  }

  /** `class PhraseHttp`: the resource path is fixed at construction. */
  class PhraseHttp {
    const path: string

    constructor (path: Option<string>)
      ensures this.path == path.GetOr(DefaultPath)
    {
      this.path := path.GetOr(DefaultPath);
    }

    /** `list`. `raw` is the outcome of the request to `path` before the
        client's interceptors; it is not consulted when `aborted` holds. */
    method List(aborted: bool, raw: Result<HttpResponse, Thrown>) returns (r: Result<seq<Phrase>, Thrown>)
      ensures r == ListOutcome(aborted, Settled(Get(path, raw)))
    {
      if aborted {
        return Err(CreateAbortError(None));
      }
      var fetched := Settled(Get(path, raw));
      if fetched.Err? {
        var e := fetched.error;
        if IsAbortLike(e) {
          return Err(CreateAbortError(Some(e)));
        }
        return Err(ErrorObj("Error", ToMessage(e, ListFailure), None, None));
      }
      var phrases := ToPhraseListFromResponse(fetched.value);
      return Ok(SortByCreatedAtDesc(phrases));
    }
  }

  /** `createPhraseHttpApi(path)`. */
  method CreatePhraseHttpApi(path: Option<string>) returns (api: PhraseHttp)
    ensures fresh(api) && api.path == path.GetOr(DefaultPath)
  {
    api := new PhraseHttp(path);
  }
}
