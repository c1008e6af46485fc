/**
 * The phrase entity: its shape, the guard that recognises it in untrusted data,
 * the normalising constructor that rebuilds it from untrusted data, and the
 * natural order (newest first) with the stable sort that the store applies.
 */
module Phrases {
  import opened Wrappers
  import opened JsValues

  /** A phrase. `createdAt` is a millisecond timestamp. */
  datatype Phrase = Phrase(id: string, text: string, createdAt: int)

  /** A phrase as `ensurePhrase` produces it: trimmed, non-blank `id` and
      `text`. */
  predicate Normalized(p: Phrase) {
    p.id != "" && Trimmed(p.id) && p.text != "" && Trimmed(p.text)
  }

  /** The plain object a phrase is in memory, and what persistence stores. */
  function PhraseToJs(p: Phrase): JsValue {
    JObject([Member("id", JStr(p.id)), Member("text", JStr(p.text)),
             Member("createdAt", JNum(Finite(p.createdAt)))])
  }

  /** `typeof v === "object" && v !== null`. */
  predicate IsLikelyObject(v: JsValue) {
    IsObject(v)
  }

  /** The number read from a raw `createdAt`: a number as is, a string through
      `Number(...)`, anything else NaN. */
  function CreatedAtNumber(raw: JsValue): Num {
    match raw
    case JNum(n) => n
    case JStr(s) => ParseNumber(s)
    case _ => NaN
  }

  /** Whether a property holds a string that is not blank. */
  predicate HasText(v: JsValue, key: string) {
    Prop(v, key).JStr? && Trim(Prop(v, key).s) != ""
  }

  /** `isPhrase`: an object whose `id` and `text` are non-blank strings and
      whose `createdAt` reads as a finite number. Every value it accepts,
      `ensurePhrase` accepts too, with the same strings trimmed. */
  predicate IsPhrase(v: JsValue): (b: bool)
    ensures b ==> HasText(v, "id") && HasText(v, "text") && EnsurePhrase(v).Ok?
    ensures b ==> EnsurePhrase(v).value.id == Trim(Prop(v, "id").s)
                  && EnsurePhrase(v).value.text == Trim(Prop(v, "text").s)
  {
    v != JNull && IsObject(v)
    && HasText(v, "id") && HasText(v, "text")
    && CreatedAtNumber(Prop(v, "createdAt")).Finite?
  }

  const ErrNotObject := "Phrase inválida: se esperaba un objeto."
  const ErrIdRequired := "Phrase inválida: 'id' es requerido."
  const ErrTextRequired := "Phrase inválida: 'text' es requerido."
  const ErrCreatedAt := "Phrase inválida: 'createdAt' debe ser un número (ms)."

  /** `ensurePhrase`: `Err` carries the message of the `Error` it throws.
      Any property value is accepted for `id` and `text` once converted with
      `String(...)` and trimmed; the checks run in the order object, id, text,
      createdAt. */
  function EnsurePhrase(v: JsValue): (r: Result<Phrase, string>)
    ensures !IsLikelyObject(v) ==> r == Err(ErrNotObject)
    ensures r.Ok? <==> IsLikelyObject(v) && Trim(FieldString(v, "id")) != ""
                       && Trim(FieldString(v, "text")) != ""
                       && CreatedAtNumber(Prop(v, "createdAt")).Finite?
    ensures r.Ok? ==> Normalized(r.value)
    ensures r.Ok? ==> r.value.id == Trim(FieldString(v, "id"))
                      && r.value.text == Trim(FieldString(v, "text"))
                      && Finite(r.value.createdAt) == CreatedAtNumber(Prop(v, "createdAt"))
  {
    if !IsLikelyObject(v) then Err(ErrNotObject)
    else
      var id := Trim(FieldString(v, "id"));
      var text := Trim(FieldString(v, "text"));
      if id == "" then Err(ErrIdRequired)
      else if text == "" then Err(ErrTextRequired)
      else match CreatedAtNumber(Prop(v, "createdAt"))
        case Finite(ms) =>
          TrimEnds(FieldString(v, "id"));
          TrimEnds(FieldString(v, "text"));
          Ok(Phrase(id, text, ms))
        case _ => Err(ErrCreatedAt)
  }

  /** The guard rejects `null`, `undefined` and every non-object; the
      constructor reports the first failing check: object, then `id`, then
      `text`, then `createdAt`. */
  lemma EnsurePhraseErrors(v: JsValue)
    ensures !IsObject(v) ==> !IsPhrase(v) && EnsurePhrase(v) == Err(ErrNotObject)
    ensures IsObject(v) && Trim(FieldString(v, "id")) == "" ==> EnsurePhrase(v) == Err(ErrIdRequired)
    ensures IsObject(v) && Trim(FieldString(v, "id")) != "" && Trim(FieldString(v, "text")) == ""
            ==> EnsurePhrase(v) == Err(ErrTextRequired)
    ensures IsObject(v) && Trim(FieldString(v, "id")) != "" && Trim(FieldString(v, "text")) != ""
              && !CreatedAtNumber(Prop(v, "createdAt")).Finite?
            ==> EnsurePhrase(v) == Err(ErrCreatedAt)
  {
  }

  /** A phrase-shaped object whose `id` is the number 7. */
  function NumericIdSample(): JsValue {
    JObject([Member("id", JNum(Finite(7))), Member("text", JStr("hola")),
             Member("createdAt", JNum(Finite(1)))])
  }

  /** The converse fails: the constructor converts a numeric `id` that the
      guard rejects. */
  lemma GuardRejectsNumericId()
    ensures !IsPhrase(NumericIdSample())
  {
    SampleProps();
  }

  lemma EnsureAcceptsNumericId()
    ensures EnsurePhrase(NumericIdSample()) == Ok(Phrase("7", "hola", 1))
  {
    SampleFields();
    var r := EnsurePhrase(NumericIdSample());
    assert r.Ok? && r.value.id == "7" && r.value.text == "hola" && r.value.createdAt == 1;
  }

  /** What the constructor reads from the sample. */
  lemma SampleFields()
    ensures IsLikelyObject(NumericIdSample())
    ensures Trim(FieldString(NumericIdSample(), "id")) == "7"
    ensures Trim(FieldString(NumericIdSample(), "text")) == "hola"
    ensures CreatedAtNumber(Prop(NumericIdSample(), "createdAt")) == Finite(1)
  {
    SampleProps();
    SampleStrings();
    TrimLiterals();
  }

  lemma SampleStrings()
    ensures FieldString(NumericIdSample(), "id") == "7"
    ensures FieldString(NumericIdSample(), "text") == "hola"
  {
    SampleProps();
    assert NatToString(7) == [DigitChar(7)] == "7";
  }

  lemma TrimLiterals()
    ensures Trim("7") == "7" && Trim("hola") == "hola"
  {
    TrimNoop("7");
    TrimNoop("hola");
  }

  lemma SampleProps()
    ensures Prop(NumericIdSample(), "id") == JNum(Finite(7))
    ensures Prop(NumericIdSample(), "text") == JStr("hola")
    ensures Prop(NumericIdSample(), "createdAt") == JNum(Finite(1))
  {
    var a, b, c := Member("id", JNum(Finite(7))), Member("text", JStr("hola")),
                   Member("createdAt", JNum(Finite(1)));
    assert NumericIdSample().fields == [a, b, c];
    KeysDistinct();
    LookupThree(a, b, c, "id");
    LookupThree(a, b, c, "text");
    LookupThree(a, b, c, "createdAt");
  }

  lemma KeysDistinct()
    ensures "id" != "text" && "id" != "createdAt" && "text" != "createdAt"
  {
    assert |"id"| == 2 && |"text"| == 4 && |"createdAt"| == 9;
  }

  lemma LookupPhraseToJs(p: Phrase)
    ensures Prop(PhraseToJs(p), "id") == JStr(p.id)
    ensures Prop(PhraseToJs(p), "text") == JStr(p.text)
    ensures Prop(PhraseToJs(p), "createdAt") == JNum(Finite(p.createdAt))
  {
    var fs := PhraseToJs(p).fields;
    KeysDistinct();
    LookupThree(fs[0], fs[1], fs[2], "id");
    LookupThree(fs[0], fs[1], fs[2], "text");
    LookupThree(fs[0], fs[1], fs[2], "createdAt");
  }

  /** A normalised phrase passes through the constructor unchanged (storing and
      reloading a phrase keeps it). */
  lemma EnsurePhraseOfPhrase(p: Phrase)
    requires Normalized(p)
    ensures IsPhrase(PhraseToJs(p))
    ensures EnsurePhrase(PhraseToJs(p)) == Ok(p)
  {
    LookupPhraseToJs(p);
    TrimNoop(p.id);
    TrimNoop(p.text);
    var v := PhraseToJs(p);
    assert FieldString(v, "id") == p.id;
    assert FieldString(v, "text") == p.text;
    assert CreatedAtNumber(Prop(v, "createdAt")) == Finite(p.createdAt);
    assert IsLikelyObject(v);
  }

  /** The constructor is idempotent: rebuilding what it built changes nothing. */
  lemma EnsurePhraseIdempotent(v: JsValue)
    requires EnsurePhrase(v).Ok?
    ensures EnsurePhrase(PhraseToJs(EnsurePhrase(v).value)) == EnsurePhrase(v)
  {
    EnsurePhraseOfPhrase(EnsurePhrase(v).value);
  }

  // ---------------------------------------------------------------------------
  // Collecting the valid phrases of a list

  /** What one input contributes: the phrase `f` returns, or nothing when it throws. */
  function Kept(f: JsValue -> Result<Phrase, string>, x: JsValue): (r: seq<Phrase>)
    ensures |r| <= 1
  {
    match f(x)
    case Ok(p) => [p]
    case Err(_) => []
  }

  /** Runs `f` over `xs` and keeps the phrases it returns, skipping the inputs
      on which it throws (a `for` loop with `try { acc.push(f(x)) } catch {}`). */
  function Collect(f: JsValue -> Result<Phrase, string>, xs: seq<JsValue>): (r: seq<Phrase>)
    ensures |r| <= |xs|
  {
    if xs == [] then [] else Kept(f, xs[0]) + Collect(f, xs[1..])
  }

  lemma {:induction false} CollectAppend(f: JsValue -> Result<Phrase, string>, xs: seq<JsValue>, ys: seq<JsValue>)
    ensures Collect(f, xs + ys) == Collect(f, xs) + Collect(f, ys)
  {
    if xs == [] {
      assert xs + ys == ys;
    } else {
      var zs := xs + ys;
      assert zs[0] == xs[0] && zs[1..] == xs[1..] + ys;
      CollectAppend(f, xs[1..], ys);
      calc {
        Collect(f, zs);
        Kept(f, xs[0]) + Collect(f, xs[1..] + ys);
        Kept(f, xs[0]) + (Collect(f, xs[1..]) + Collect(f, ys));
        (Kept(f, xs[0]) + Collect(f, xs[1..])) + Collect(f, ys);
      }
    }
  }

  /** Extending the input by one value extends the output by what that value contributes. */
  lemma CollectSnoc(f: JsValue -> Result<Phrase, string>, xs: seq<JsValue>, x: JsValue)
    ensures Collect(f, xs + [x]) == Collect(f, xs) + Kept(f, x)
  {
    CollectAppend(f, xs, [x]);
    assert Collect(f, [x]) == Kept(f, x) + Collect(f, []);
  }

  /** The loop `for (const candidate of items) { try { acc.push(f(candidate)); }
      catch { continue; } }` that both the response mapper and the storage
      loader run. */
  method CollectValid(f: JsValue -> Result<Phrase, string>, items: seq<JsValue>) returns (acc: seq<Phrase>)
    ensures acc == Collect(f, items)
  {
    acc := [];
    var i := 0;
    while i < |items|
      invariant 0 <= i <= |items|
      invariant acc == Collect(f, items[..i])
    {
      var candidate := items[i];
      var converted := f(candidate);
      if converted.Ok? {
        acc := acc + [converted.value];
      }
      CollectSnoc(f, items[..i], candidate);
      assert items[..i + 1] == items[..i] + [candidate];
      i := i + 1;
    }
    assert items[..i] == items;
  }

  /** A phrase is collected exactly when `f` returns it for some input. */
  lemma {:induction false} CollectMember(f: JsValue -> Result<Phrase, string>, xs: seq<JsValue>, p: Phrase)
    ensures p in Collect(f, xs) <==> exists i :: 0 <= i < |xs| && f(xs[i]) == Ok(p)
  {
    if xs != [] {
      CollectMember(f, xs[1..], p);
      assert p in Collect(f, xs) <==> p in Kept(f, xs[0]) || p in Collect(f, xs[1..]);
      if exists i :: 0 <= i < |xs[1..]| && f(xs[1..][i]) == Ok(p) {
        var i :| 0 <= i < |xs[1..]| && f(xs[1..][i]) == Ok(p);
        assert f(xs[i + 1]) == Ok(p);
      }
      if exists i :: 0 <= i < |xs| && f(xs[i]) == Ok(p) {
        var i :| 0 <= i < |xs| && f(xs[i]) == Ok(p);
        if i > 0 {
          assert f(xs[1..][i - 1]) == Ok(p);
        }
      }
    }
  }

  /** Nothing is dropped when `f` accepts every input. */
  lemma {:induction false} CollectAllOk(f: JsValue -> Result<Phrase, string>, xs: seq<JsValue>)
    requires forall i :: 0 <= i < |xs| ==> f(xs[i]).Ok?
    ensures |Collect(f, xs)| == |xs|
    ensures forall i :: 0 <= i < |xs| ==> Collect(f, xs)[i] == f(xs[i]).value
  {
    if xs != [] {
      assert forall i :: 0 <= i < |xs[1..]| ==> f(xs[1..][i]).Ok? by {
        forall i | 0 <= i < |xs[1..]| ensures f(xs[1..][i]).Ok? {
          assert xs[1..][i] == xs[i + 1];
        }
      }
      CollectAllOk(f, xs[1..]);
      assert Kept(f, xs[0]) == [f(xs[0]).value];
    }
  }

  // ---------------------------------------------------------------------------
  // Order

  /** `compareByCreatedAtDesc`: negative when `a` is newer than `b`, so that
      sorting puts the newest phrase first. */
  function CompareByCreatedAtDesc(a: Phrase, b: Phrase): (r: int)
    ensures r < 0 <==> a.createdAt > b.createdAt
    ensures r == 0 <==> a.createdAt == b.createdAt
    ensures r > 0 <==> a.createdAt < b.createdAt
  {
    b.createdAt - a.createdAt
  }

  /** The comparator is antisymmetric, as `Array.prototype.sort` requires. */
  lemma CompareAntisymmetric(a: Phrase, b: Phrase)
    ensures CompareByCreatedAtDesc(a, b) == -CompareByCreatedAtDesc(b, a)
  {
  }

  /** The comparator is transitive on "comes before or ties". */
  lemma CompareTransitive(a: Phrase, b: Phrase, c: Phrase)
    requires CompareByCreatedAtDesc(a, b) <= 0 && CompareByCreatedAtDesc(b, c) <= 0
    ensures CompareByCreatedAtDesc(a, c) <= 0
  {
  }

  predicate SortedDesc(xs: seq<Phrase>) {
    forall i, j :: 0 <= i < j < |xs| ==> xs[i].createdAt >= xs[j].createdAt
  }

  /** Inserts `x` before the first element that is not newer than it, so that
      `x` stays ahead of elements it ties with. */
  function Insert(x: Phrase, ys: seq<Phrase>): seq<Phrase> {
    if ys == [] || ys[0].createdAt <= x.createdAt then [x] + ys
    else [ys[0]] + Insert(x, ys[1..])
  }


  lemma {:induction false} InsertPermutation(x: Phrase, ys: seq<Phrase>)
    ensures multiset(Insert(x, ys)) == multiset{x} + multiset(ys)
    ensures |Insert(x, ys)| == |ys| + 1
  {
    if ys != [] && ys[0].createdAt > x.createdAt {
      InsertPermutation(x, ys[1..]);
      assert ys == [ys[0]] + ys[1..];
    }
  }

  /** Putting `y` in front of an ordered list keeps it ordered when `y` is
      at least as new as every element. */
  lemma SortedCons(y: Phrase, t: seq<Phrase>)
    requires SortedDesc(t)
    requires forall k :: 0 <= k < |t| ==> y.createdAt >= t[k].createdAt
    ensures SortedDesc([y] + t)
  {
    var r := [y] + t;
    forall i, j | 0 <= i < j < |r| ensures r[i].createdAt >= r[j].createdAt {
      assert r[j] == t[j - 1];
      if i > 0 {
        assert r[i] == t[i - 1];
      }
    }
  }

  lemma {:induction false} InsertSorted(x: Phrase, ys: seq<Phrase>)
    requires SortedDesc(ys)
    ensures SortedDesc(Insert(x, ys))
  {
    if ys == [] || ys[0].createdAt <= x.createdAt {
      SortedCons(x, ys);
    } else {
      var y := ys[0];
      var rest := ys[1..];
      assert SortedDesc(rest) by {
        forall i, j | 0 <= i < j < |rest| ensures rest[i].createdAt >= rest[j].createdAt {
          assert rest[i] == ys[i + 1] && rest[j] == ys[j + 1];
        }
      }
      InsertSorted(x, rest);
      var t := Insert(x, rest);
      InsertPermutation(x, rest);
      forall k | 0 <= k < |t| ensures y.createdAt >= t[k].createdAt {
        assert t[k] in multiset(t);
        if t[k] != x {
          assert t[k] in multiset(rest);
          var m :| 0 <= m < |rest| && rest[m] == t[k];
          assert ys[m + 1] == t[k];
        }
      }
      SortedCons(y, t);
    }
  }

  lemma InsertFacts(x: Phrase, ys: seq<Phrase>)
    requires SortedDesc(ys)
    ensures SortedDesc(Insert(x, ys))
    ensures multiset(Insert(x, ys)) == multiset{x} + multiset(ys)
    ensures |Insert(x, ys)| == |ys| + 1
  {
    InsertSorted(x, ys);
    InsertPermutation(x, ys);
  }

  /** `Array.prototype.sort(compareByCreatedAtDesc)`: a stable sort, which
      orders newest first and is a permutation of its input. */
  function SortByCreatedAtDesc(xs: seq<Phrase>): (r: seq<Phrase>)
    ensures SortedDesc(r)
    ensures multiset(r) == multiset(xs)
    ensures |r| == |xs|
  {
    if xs == [] then []
    else
      var t := SortByCreatedAtDesc(xs[1..]);
      InsertFacts(xs[0], t);
      assert xs == [xs[0]] + xs[1..];
      Insert(xs[0], t)
  }

  /** The phrases of `xs` created at `ms`, in order. */
  function CreatedAt(xs: seq<Phrase>, ms: int): seq<Phrase> {
    if xs == [] then []
    else (if xs[0].createdAt == ms then [xs[0]] else []) + CreatedAt(xs[1..], ms)
  }

  lemma CreatedAtCons(y: Phrase, t: seq<Phrase>, ms: int)
    ensures CreatedAt([y] + t, ms) == (if y.createdAt == ms then [y] else []) + CreatedAt(t, ms)
  {
    assert ([y] + t)[0] == y && ([y] + t)[1..] == t;
  }

  lemma {:induction false} InsertStable(x: Phrase, ys: seq<Phrase>, ms: int)
    ensures CreatedAt(Insert(x, ys), ms) == (if x.createdAt == ms then [x] else []) + CreatedAt(ys, ms)
  {
    if ys == [] || ys[0].createdAt <= x.createdAt {
      CreatedAtCons(x, ys, ms);
    } else {
      var y := ys[0];
      InsertStable(x, ys[1..], ms);
      CreatedAtCons(y, Insert(x, ys[1..]), ms);
      CreatedAtCons(y, ys[1..], ms);
      assert ys == [y] + ys[1..];
      var hx := if x.createdAt == ms then [x] else [];
      var hy := if y.createdAt == ms then [y] else [];
      assert hx == [] || hy == [];
      assert hy + (hx + CreatedAt(ys[1..], ms)) == hx + (hy + CreatedAt(ys[1..], ms));
    }
  }

  /** Stability: phrases with the same timestamp keep their relative order. */
  lemma {:induction false} SortStable(xs: seq<Phrase>, ms: int)
    ensures CreatedAt(SortByCreatedAtDesc(xs), ms) == CreatedAt(xs, ms)
  {
    if xs != [] {
      SortStable(xs[1..], ms);
      InsertStable(xs[0], SortByCreatedAtDesc(xs[1..]), ms);
    }
  }

  /** Sorting an already ordered list leaves it as it is. */
  lemma {:induction false} SortSortedIdentity(xs: seq<Phrase>)
    requires SortedDesc(xs)
    ensures SortByCreatedAtDesc(xs) == xs
  {
    if xs != [] {
      assert SortedDesc(xs[1..]) by {
        forall i, j | 0 <= i < j < |xs[1..]| ensures xs[1..][i].createdAt >= xs[1..][j].createdAt {
          assert xs[1..][i] == xs[i + 1] && xs[1..][j] == xs[j + 1];
        }
      }
      SortSortedIdentity(xs[1..]);
      if |xs| > 1 {
        assert xs[1..][0] == xs[1];
      }
      assert [xs[0]] + xs[1..] == xs;
    }
  }

  /** Sorting twice is sorting once. */
  lemma SortIdempotent(xs: seq<Phrase>)
    ensures SortByCreatedAtDesc(SortByCreatedAtDesc(xs)) == SortByCreatedAtDesc(xs)
  {
    SortSortedIdentity(SortByCreatedAtDesc(xs));
  }
}
