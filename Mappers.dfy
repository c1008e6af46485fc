/**
 * Conversions between the transport objects of the phrases endpoint (DTOs) and
 * the phrase entity: one DTO to a phrase, a whole endpoint response to the list
 * of its valid phrases, a phrase back to a DTO, and the DTO for creating a
 * phrase.
 */
module Mappers {
  import opened Wrappers
  import opened JsValues
  import opened Phrases

  const ErrDtoNull := "DTO inválido: objeto nulo/indefinido."
  const ErrDtoId := "DTO inválido: 'id' es requerido."
  const ErrDtoText := "DTO inválido: 'text' es requerido."
  const ErrDtoCreatedAt := "DTO inválido: 'createdAt' debe ser numérico."
  const ErrPhraseNull := "Phrase inválida: objeto nulo/indefinido."
  const ErrPhraseCreatedAt := "Phrase inválida: 'createdAt' debe ser numérico."
  const ErrNewText := "Nuevo DTO inválido: 'text' es requerido."

  /** `isObject`: `typeof v === "object" && v !== null`. */
  predicate IsObjectValue(v: JsValue) {
    IsObject(v)
  }

  /** `toPhrase`: any truthy value is inspected; `id` and `text` go through
      `String(... ?? "")` and `trim`, `createdAt` must read as a finite number,
      and the result is passed through `ensurePhrase`. */
  function ToPhrase(dto: JsValue): (r: Result<Phrase, string>)
    ensures !Truthy(dto) ==> r == Err(ErrDtoNull)
    ensures r.Ok? <==> Truthy(dto) && Trim(FieldString(dto, "id")) != ""
                       && Trim(FieldString(dto, "text")) != ""
                       && CreatedAtNumber(Prop(dto, "createdAt")).Finite?
    ensures r.Ok? ==> r.value == Phrase(Trim(FieldString(dto, "id")), Trim(FieldString(dto, "text")),
                                        CreatedAtNumber(Prop(dto, "createdAt")).value)
  {
    if !Truthy(dto) then Err(ErrDtoNull)
    else
      var id := Trim(FieldString(dto, "id"));
      if id == "" then Err(ErrDtoId)
      else
        var text := Trim(FieldString(dto, "text"));
        if text == "" then Err(ErrDtoText)
        else match CreatedAtNumber(Prop(dto, "createdAt"))
          case Finite(ms) =>
            var p := Phrase(id, text, ms);
            TrimEnds(FieldString(dto, "id"));
            TrimEnds(FieldString(dto, "text"));
            EnsurePhraseOfPhrase(p);
            EnsurePhrase(PhraseToJs(p))
          case _ => Err(ErrDtoCreatedAt)
  }

  /** A value that is not an object has no `id`, so both conversions reject it. */
  lemma NonObjectHasNoId(v: JsValue)
    requires !IsObject(v)
    ensures Trim(FieldString(v, "id")) == ""
  {
    assert FieldString(v, "id") == "";
  }

  /** `toPhrase` and `ensurePhrase` accept the same values and build the same
      phrase from them; only their error messages differ. */
  lemma ToPhraseAgreesWithEnsurePhrase(v: JsValue)
    ensures ToPhrase(v).Ok? <==> EnsurePhrase(v).Ok?
    ensures ToPhrase(v).Ok? ==> ToPhrase(v).value == EnsurePhrase(v).value
  {
    if !IsObject(v) {
      NonObjectHasNoId(v);
    }
  }

  /** Every phrase `toPhrase` builds has a trimmed, non-blank `id` and `text`. */
  lemma ToPhraseNormalized(v: JsValue)
    requires ToPhrase(v).Ok?
    ensures Normalized(ToPhrase(v).value)
  {
    ToPhraseAgreesWithEnsurePhrase(v);
  }

  // ---------------------------------------------------------------------------
  // A whole response

  /** The items a response carries: its `phrases` array, if it has one. */
  function ResponseItems(payload: JsValue): (r: Option<seq<JsValue>>)
    ensures r.Some? <==> IsObjectValue(payload) && Prop(payload, "phrases").JArray?
  {
    if !IsObjectValue(payload) then None
    else
      var items := Prop(payload, "phrases");
      if !items.JArray? then None else Some(items.elems)
  }

  /** What `toPhraseListFromResponse` returns: the phrases of the valid DTOs,
      in order, and `[]` when there is no `phrases` array. */
  function PhrasesOfResponse(payload: JsValue): seq<Phrase> {
    match ResponseItems(payload)
    case None => []
    case Some(items) => Collect(ToPhrase, items)
  }

  /** `toPhraseListFromResponse`: a loop over `payload.phrases` that skips the
      DTOs on which `toPhrase` throws. */
  method ToPhraseListFromResponse(payload: JsValue) returns (acc: seq<Phrase>)
    ensures acc == PhrasesOfResponse(payload)
  {
    var found := ResponseItems(payload);
    if found.None? {
      return [];
    }
    acc := CollectValid(ToPhrase, found.value);
  }

  /** A phrase is in the list exactly when some DTO of the response converts to it. */
  lemma PhrasesOfResponseMember(payload: JsValue, p: Phrase)
    requires ResponseItems(payload).Some?
    ensures p in PhrasesOfResponse(payload)
        <==> exists i :: 0 <= i < |ResponseItems(payload).value|
                         && ToPhrase(ResponseItems(payload).value[i]) == Ok(p)
  {
    CollectMember(ToPhrase, ResponseItems(payload).value, p);
  }

  /** Every phrase in the list is normalised, and the list is never longer
      than the response's array. */
  lemma PhrasesOfResponseValid(payload: JsValue)
    ensures forall p :: p in PhrasesOfResponse(payload) ==> Normalized(p)
    ensures ResponseItems(payload).Some? ==> |PhrasesOfResponse(payload)| <= |ResponseItems(payload).value|
  {
    if ResponseItems(payload).Some? {
      forall p | p in PhrasesOfResponse(payload) ensures Normalized(p) {
        PhrasesOfResponseMember(payload, p);
        var i :| 0 <= i < |ResponseItems(payload).value| && ToPhrase(ResponseItems(payload).value[i]) == Ok(p);
        ToPhraseNormalized(ResponseItems(payload).value[i]);
      }
    }
  }

  // ---------------------------------------------------------------------------
  // Phrase to DTO

  /** A phrase-typed value as `toPhraseDto` sees it: the object may be missing
      and so may its `id` and `text`. */
  datatype PhraseRecord = PhraseRecord(id: Option<string>, text: Option<string>, createdAt: Num)

  /** A DTO of the endpoint; `createdAt` in milliseconds. */
  datatype PhraseDto = PhraseDto(id: string, text: string, createdAt: int)

  function DtoToJs(d: PhraseDto): JsValue {
    JObject([Member("id", JStr(d.id)), Member("text", JStr(d.text)),
             Member("createdAt", JNum(Finite(d.createdAt)))])
  }

  function RecordOf(p: Phrase): PhraseRecord {
    PhraseRecord(Some(p.id), Some(p.text), Finite(p.createdAt))
  }

  /** `!s?.trim()`. */
  predicate Blank(s: Option<string>) {
    s.None? || Trim(s.value) == ""
  }

  /** `toPhraseDto`: checks the fields are present, non-blank and finite and
      copies them unchanged (no trimming). */
  function ToPhraseDto(phrase: Option<PhraseRecord>): (r: Result<PhraseDto, string>)
    ensures phrase.None? ==> r == Err(ErrPhraseNull)
    ensures r.Ok? <==> phrase.Some? && !Blank(phrase.value.id) && !Blank(phrase.value.text)
                       && phrase.value.createdAt.Finite?
    ensures r.Ok? ==> Some(r.value.id) == phrase.value.id && Some(r.value.text) == phrase.value.text
                      && Finite(r.value.createdAt) == phrase.value.createdAt
  {
    match phrase
    case None => Err(ErrPhraseNull)
    case Some(rec) =>
      if Blank(rec.id) then Err(ErrIdRequired)
      else if Blank(rec.text) then Err(ErrTextRequired)
      else if !rec.createdAt.Finite? then Err(ErrPhraseCreatedAt)
      else Ok(PhraseDto(rec.id.value, rec.text.value, rec.createdAt.value))
  }

  /** Reading a DTO back trims its `id` and `text` and keeps its timestamp. */
  lemma ToPhraseOfDto(d: PhraseDto)
    requires Trim(d.id) != "" && Trim(d.text) != ""
    ensures ToPhrase(DtoToJs(d)) == Ok(Phrase(Trim(d.id), Trim(d.text), d.createdAt))
  {
    var v := DtoToJs(d);
    assert v == PhraseToJs(Phrase(d.id, d.text, d.createdAt));
    LookupPhraseToJs(Phrase(d.id, d.text, d.createdAt));
    assert FieldString(v, "id") == d.id;
    assert FieldString(v, "text") == d.text;
  }

  /** Round trip: a phrase sent as a DTO and read back is the same phrase. */
  lemma DtoRoundTrip(p: Phrase)
    requires Normalized(p)
    ensures ToPhraseDto(Some(RecordOf(p))).Ok?
    ensures ToPhrase(DtoToJs(ToPhraseDto(Some(RecordOf(p))).value)) == Ok(p)
  {
    TrimNoop(p.id);
    TrimNoop(p.text);
    ToPhraseOfDto(PhraseDto(p.id, p.text, p.createdAt));
  }

  /** The response body an endpoint would send for `ps`: `{ phrases: [dto, ...] }`. */
  function ResponseOf(ps: seq<Phrase>): JsValue {
    JObject([Member("phrases", JArray(DtoList(ps)))])
  }

  function DtoList(ps: seq<Phrase>): (r: seq<JsValue>)
    ensures |r| == |ps|
  {
    seq(|ps|, i requires 0 <= i < |ps| => DtoToJs(PhraseDto(ps[i].id, ps[i].text, ps[i].createdAt)))
  }

  lemma ReadDto(p: Phrase)
    requires Normalized(p)
    ensures ToPhrase(DtoToJs(PhraseDto(p.id, p.text, p.createdAt))) == Ok(p)
  {
    TrimNoop(p.id);
    TrimNoop(p.text);
    ToPhraseOfDto(PhraseDto(p.id, p.text, p.createdAt));
  }

  lemma CollectDtoList(ps: seq<Phrase>)
    requires forall i :: 0 <= i < |ps| ==> Normalized(ps[i])
    ensures Collect(ToPhrase, DtoList(ps)) == ps
  {
    var xs := DtoList(ps);
    forall i | 0 <= i < |xs| ensures ToPhrase(xs[i]) == Ok(ps[i]) {
      ReadDto(ps[i]);
    }
    CollectAllOk(ToPhrase, xs);
  }

  /** Round trip over a whole response: the mapper returns exactly the phrases
      that were sent, in the order they were sent. */
  lemma ResponseRoundTrip(ps: seq<Phrase>)
    requires forall i :: 0 <= i < |ps| ==> Normalized(ps[i])
    ensures PhrasesOfResponse(ResponseOf(ps)) == ps
  {
    var fs := ResponseOf(ps).fields;
    assert Lookup(fs, "phrases") == JArray(DtoList(ps));
    CollectDtoList(ps);
  }

  // ---------------------------------------------------------------------------
  // DTO for creation

  /** The body of a creation request. */
  datatype NewPhraseDto = NewPhraseDto(text: string, createdAt: int)

  /** `toNewPhraseDto`: `text` is converted and trimmed and must not be blank;
      a finite numeric `createdAt` is kept, otherwise the clock's `now` is used. */
  function ToNewPhraseDto(input: JsValue, now: int): (r: Result<NewPhraseDto, string>)
    ensures r.Ok? <==> Trim(FieldString(input, "text")) != ""
    ensures r.Err? ==> r.error == ErrNewText
    ensures r.Ok? ==> r.value.text == Trim(FieldString(input, "text"))
    ensures r.Ok? ==> (match Prop(input, "createdAt")
                       case JNum(Finite(ms)) => r.value.createdAt == ms
                       case _ => r.value.createdAt == now)
  {
    var text := Trim(FieldString(input, "text"));
    if text == "" then Err(ErrNewText)
    else
      var createdAt := match Prop(input, "createdAt")
        case JNum(Finite(ms)) => ms
        case _ => now;
      Ok(NewPhraseDto(text, createdAt))
  }

  /** The text of a creation DTO has no surrounding whitespace, and a string
      `createdAt` is not honoured: the clock is used instead. */
  lemma NewPhraseDtoFacts(input: JsValue, now: int)
    requires ToNewPhraseDto(input, now).Ok?
    ensures Trim(ToNewPhraseDto(input, now).value.text) == ToNewPhraseDto(input, now).value.text
    ensures Prop(input, "createdAt").JStr? ==> ToNewPhraseDto(input, now).value.createdAt == now
  {
    TrimIdempotent(FieldString(input, "text"));
  }
}
