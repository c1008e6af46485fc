/**
 * The phrases store slice: the state `{items, query, status, error}`, its
 * reducers, the fetch lifecycle, and the error mapping of the `fetchPhrases`
 * thunk. `Reduce` is the reducer as a function on state values; the class
 * `Draft` is the mutable draft the reducers edit in place, and each of its
 * methods is proved to perform `Reduce`.
 */
module PhrasesSlice {
  import opened Wrappers
  import opened JsValues
  import opened Phrases
  import opened Http
  import opened PhraseHttp

  datatype Status = Idle | Pending | Succeeded | Failed

  /** `error: null` is `None`. */
  datatype PhrasesState = PhrasesState(items: seq<Phrase>, query: string, status: Status, error: Option<string>)

  const InitialState := PhrasesState([], "", Idle, None)
  const LoadFailure := "No se pudo cargar el listado de frases."
  const LoadCanceled := "Operación cancelada."

  datatype Action =
    | SetQuery(query: string)
    /** `None` is an absent payload. */
    | AddPhraseLocal(phrase: Option<Phrase>)
    | DeletePhraseLocal(id: Option<string>)
    /** `None` is a payload that is not an array. */
    | SetAllLocal(phrases: Option<seq<Phrase>>)
    | ClearError
    | FetchPending
    | FetchFulfilled(payload: seq<Phrase>)
    /** `None` is a rejection without a value (an aborted thunk). */
    | FetchRejected(message: Option<string>)

  /** `items.some(item => item.id === id)`. */
  predicate HasId(items: seq<Phrase>, id: string) {
    exists i :: 0 <= i < |items| && items[i].id == id
  }

  predicate UniqueIds(items: seq<Phrase>) {
    forall i, j :: 0 <= i < j < |items| ==> items[i].id != items[j].id
  }

  /** `items.filter(item => item.id !== id)`. */
  function WithoutId(items: seq<Phrase>, id: string): seq<Phrase> {
    if items == [] then []
    else (if items[0].id == id then [] else [items[0]]) + WithoutId(items[1..], id)
  }

  /** The items after `addPhraseLocal`. */
  function AddedItems(items: seq<Phrase>, phrase: Option<Phrase>): seq<Phrase> {
    if phrase.None? || phrase.value.id == "" || HasId(items, phrase.value.id) then items
    else SortByCreatedAtDesc(items + [phrase.value])
  }

  /** The items after `deletePhraseLocal`: the payload is trimmed first. */
  function DeletedItems(items: seq<Phrase>, id: Option<string>): seq<Phrase> {
    if id.None? || Trim(id.value) == "" then items else WithoutId(items, Trim(id.value))
  }

  /** The items after `setAllLocal`. */
  function AllItems(phrases: Option<seq<Phrase>>): seq<Phrase> {
    if phrases.None? || phrases.value == [] then [] else SortByCreatedAtDesc(phrases.value)
  }

  /** `action.payload || "No se pudo cargar el listado de frases."`. */
  function RejectedMessage(message: Option<string>): (r: string)
    ensures r != ""
    ensures message.Some? && message.value != "" ==> r == message.value
  {
    if message.Some? && message.value != "" then message.value else LoadFailure
  }

  /** The slice reducer. Each field has its own actions: only `setQuery`
      touches the query, only the fetch lifecycle the status, only the local
      item actions and a fulfilled fetch the items; the error is only ever
      cleared, except by a rejection, which sets a non-empty one. */
  function Reduce(s: PhrasesState, a: Action): (r: PhrasesState)
    ensures r.query != s.query ==> a.SetQuery?
    ensures r.status != s.status ==> a.FetchPending? || a.FetchFulfilled? || a.FetchRejected?
    ensures r.items != s.items ==> a.AddPhraseLocal? || a.DeletePhraseLocal? || a.SetAllLocal? || a.FetchFulfilled?
    ensures r.error != s.error ==> (r.error.None? && (a.ClearError? || a.FetchPending? || a.FetchFulfilled?))
                                   || (a.FetchRejected? && r.error.Some? && r.error.value != "")
  {
    match a
    case SetQuery(q) => s.(query := q)
    case AddPhraseLocal(p) => s.(items := AddedItems(s.items, p))
    case DeletePhraseLocal(id) => s.(items := DeletedItems(s.items, id))
    case SetAllLocal(ps) => s.(items := AllItems(ps))
    case ClearError => s.(error := None)
    case FetchPending => s.(status := Pending, error := None)
    case FetchFulfilled(ps) => s.(status := Succeeded, error := None, items := ps)
    case FetchRejected(m) => s.(status := Failed, error := Some(RejectedMessage(m)))
  }

  // ---------------------------------------------------------------------------
  // The `fetchPhrases` thunk

  /** What the thunk's payload creator resolves to: the listed phrases, or the
      value it rejects with. A listing error named "AbortError" becomes
      "Operación cancelada."; any other error its non-empty string message,
      else the default text. */
  function PayloadOutcome(listed: Result<seq<Phrase>, Thrown>): (a: Action)
    ensures a.FetchFulfilled? || (a.FetchRejected? && a.message.Some?)
    ensures listed.Ok? <==> a.FetchFulfilled?
  {
    match listed
    case Ok(items) => FetchFulfilled(items)
    case Err(e) =>
      if NameOf(e) == JStr("AbortError") then FetchRejected(Some(LoadCanceled))
      else if MessageOf(e).JStr? && MessageOf(e).s != "" then FetchRejected(Some(MessageOf(e).s))
      else FetchRejected(Some(LoadFailure))
  }

  /** The action the thunk dispatches when it settles. When its signal is
      aborted before the listing settles, the thunk rejects at once without a
      value, and the listing's outcome is ignored. */
  function SettledAction(abortedFirst: bool, listed: Result<seq<Phrase>, Thrown>): (a: Action)
    ensures abortedFirst ==> a == FetchRejected(None)
  {
    if abortedFirst then FetchRejected(None) else PayloadOutcome(listed)
  }

  /** Every rejection, a cancellation included, ends in `Failed` with a
      non-empty error; nothing else in the state changes. */
  lemma RejectionFails(s: PhrasesState, abortedFirst: bool, listed: Result<seq<Phrase>, Thrown>)
    requires abortedFirst || listed.Err?
    ensures var t := Reduce(s, SettledAction(abortedFirst, listed));
            t.status == Failed && t.error.Some? && t.error.value != ""
            && t.items == s.items && t.query == s.query
    ensures abortedFirst ==> Reduce(s, SettledAction(abortedFirst, listed)).error == Some(LoadFailure)
  {
  }

  /** Through the HTTP listing, a cancellation the listing reports becomes
      "Operación cancelada.". */
  lemma ListingAbortReachesState(s: PhrasesState, e: Thrown)
    requires IsAbortLike(e)
    ensures Reduce(s, SettledAction(false, ListOutcome(false, Err(e)))).error == Some(LoadCanceled)
  {
    assert ListOutcome(false, Err(e)) == Err(CreateAbortError(Some(e)));
    assert NameOf(CreateAbortError(Some(e))) == JStr("AbortError");
    assert SettledAction(false, ListOutcome(false, Err(e))) == FetchRejected(Some(LoadCanceled));
  }

  /** Through the HTTP listing, any other failure keeps the listing's
      prefixed message. */
  lemma ListingFailureReachesState(s: PhrasesState, e: Thrown)
    requires !IsAbortLike(e)
    ensures Reduce(s, SettledAction(false, ListOutcome(false, Err(e)))).error == Some(ToMessage(e, ListFailure))
  {
    var m := ToMessage(e, ListFailure);
    FailureMessageNonEmpty(e);
    ListOtherError(e);
    PayloadOfError(m);
  }

  lemma FailureMessageNonEmpty(e: Thrown)
    ensures ToMessage(e, ListFailure) != ""
  {
    ToMessageContainsFallback(e, ListFailure);
    ContainsLength(ToMessage(e, ListFailure), ListFailure);
    assert |ListFailure| > 0;
  }

  /** A plain `Error` with a message is rejected with that message. */
  lemma PayloadOfError(m: string)
    requires m != ""
    ensures PayloadOutcome(Err(ErrorObj("Error", m, None, None))) == FetchRejected(Some(m))
  {
    assert |"Error"| != |"AbortError"|;
  }

  /** A successful fetch stores the listing as it is and clears the error. */
  lemma FulfilledStoresListing(s: PhrasesState, items: seq<Phrase>)
    ensures Reduce(s, SettledAction(false, Ok(items))) == s.(status := Succeeded, error := None, items := items)
  {
  }

  /** There is no request identity: when an older request is aborted after a
      newer one started, its rejection marks the state as failed although the
      newer request is still in flight, and whichever request settles last
      decides the items. */
  lemma NoRequestIdentity(s: PhrasesState, older: seq<Phrase>, newer: seq<Phrase>)
    ensures var t := Reduce(Reduce(Reduce(s, FetchPending), FetchPending), FetchRejected(None));
            t.status == Failed && t.error == Some(LoadFailure)
    ensures Reduce(Reduce(Reduce(s, FetchPending), FetchFulfilled(newer)), FetchFulfilled(older)).items == older
  {
  }

  // ---------------------------------------------------------------------------
  // Reducer properties

  lemma SetQueryKeepsRaw(s: PhrasesState, q: string)
    ensures Reduce(s, SetQuery(q)) == PhrasesState(s.items, q, s.status, s.error)
  {
  }

  lemma ClearErrorOnlyError(s: PhrasesState)
    ensures Reduce(s, ClearError) == PhrasesState(s.items, s.query, s.status, None)
  {
  }

  lemma PendingAndFulfilled(s: PhrasesState, ps: seq<Phrase>)
    ensures Reduce(s, FetchPending) == PhrasesState(s.items, s.query, Pending, None)
    ensures Reduce(s, FetchFulfilled(ps)) == PhrasesState(ps, s.query, Succeeded, None)
  {
  }

  lemma RejectedMessageChoice(s: PhrasesState, m: Option<string>)
    ensures Reduce(s, FetchRejected(m)).status == Failed
    ensures m.Some? && m.value != "" ==> Reduce(s, FetchRejected(m)).error == m
    ensures m.None? || m == Some("") ==> Reduce(s, FetchRejected(m)).error == Some(LoadFailure)
  {
  }

  lemma SortMember(xs: seq<Phrase>, x: Phrase)
    ensures x in SortByCreatedAtDesc(xs) <==> x in xs
  {
    assert x in SortByCreatedAtDesc(xs) <==> x in multiset(SortByCreatedAtDesc(xs));
    assert x in xs <==> x in multiset(xs);
  }

  lemma UniqueCons(y: Phrase, t: seq<Phrase>)
    requires UniqueIds(t) && !HasId(t, y.id)
    ensures UniqueIds([y] + t)
  {
    var r := [y] + t;
    forall i, j | 0 <= i < j < |r| ensures r[i].id != r[j].id {
      assert r[j] == t[j - 1];
      if i > 0 {
        assert r[i] == t[i - 1];
      }
    }
  }

  lemma UniqueTail(ys: seq<Phrase>)
    requires ys != [] && UniqueIds(ys)
    ensures UniqueIds(ys[1..]) && !HasId(ys[1..], ys[0].id)
  {
    assert forall i :: 0 <= i < |ys[1..]| ==> ys[1..][i] == ys[i + 1];
  }

  lemma {:induction false} InsertUnique(x: Phrase, ys: seq<Phrase>)
    requires UniqueIds(ys) && !HasId(ys, x.id)
    ensures UniqueIds(Insert(x, ys))
  {
    if ys == [] || ys[0].createdAt <= x.createdAt {
      UniqueCons(x, ys);
    } else {
      var y, rest := ys[0], ys[1..];
      UniqueTail(ys);
      assert !HasId(rest, x.id) by {
        assert forall i :: 0 <= i < |rest| ==> rest[i] == ys[i + 1];
      }
      InsertUnique(x, rest);
      var t := Insert(x, rest);
      InsertPermutation(x, rest);
      forall k | 0 <= k < |t| ensures t[k].id != y.id {
        assert t[k] in multiset(t);
        if t[k] != x {
          assert t[k] in multiset(rest);
          var m :| 0 <= m < |rest| && rest[m] == t[k];
        }
      }
      UniqueCons(y, t);
    }
  }

  lemma {:induction false} SortUnique(xs: seq<Phrase>)
    requires UniqueIds(xs)
    ensures UniqueIds(SortByCreatedAtDesc(xs))
  {
    if xs != [] {
      UniqueTail(xs);
      SortUnique(xs[1..]);
      var t := SortByCreatedAtDesc(xs[1..]);
      forall k | 0 <= k < |t| ensures t[k].id != xs[0].id {
        SortMember(xs[1..], t[k]);
        var m :| 0 <= m < |xs[1..]| && xs[1..][m] == t[k];
      }
      InsertUnique(xs[0], t);
    }
  }

  /** `addPhraseLocal` ignores a missing phrase, an empty id and a known id. */
  lemma AddPhraseSkips(s: PhrasesState, p: Option<Phrase>)
    requires p.None? || p.value.id == "" || HasId(s.items, p.value.id)
    ensures Reduce(s, AddPhraseLocal(p)) == s
  {
  }

  /** Otherwise it adds exactly that phrase, leaves the list ordered newest
      first, and keeps ids unique. */
  lemma AddPhraseInserts(s: PhrasesState, p: Phrase)
    requires p.id != "" && !HasId(s.items, p.id)
    ensures var items := Reduce(s, AddPhraseLocal(Some(p))).items;
            |items| == |s.items| + 1 && p in items
            && multiset(items) == multiset(s.items) + multiset{p}
            && SortedDesc(items)
            && (UniqueIds(s.items) ==> UniqueIds(items))
  {
    var xs := s.items + [p];
    assert p in multiset(SortByCreatedAtDesc(xs)) by {
      assert xs[|s.items|] == p;
    }
    if UniqueIds(s.items) {
      forall i, j | 0 <= i < j < |xs| ensures xs[i].id != xs[j].id {
        assert xs[i] == s.items[i];
        if j < |s.items| {
          assert xs[j] == s.items[j];
        }
      }
      SortUnique(xs);
    }
  }

  lemma {:induction false} WithoutIdMember(items: seq<Phrase>, id: string, x: Phrase)
    ensures x in WithoutId(items, id) <==> x in items && x.id != id
  {
    if items != [] {
      WithoutIdMember(items[1..], id, x);
      assert items == [items[0]] + items[1..];
    }
  }

  /** The filter respects concatenation, so it keeps the survivors' order. */
  lemma {:induction false} WithoutIdAppend(a: seq<Phrase>, b: seq<Phrase>, id: string)
    ensures WithoutId(a + b, id) == WithoutId(a, id) + WithoutId(b, id)
  {
    if a == [] {
      assert a + b == b;
    } else {
      var h := if a[0].id == id then [] else [a[0]];
      assert (a + b)[0] == a[0] && (a + b)[1..] == a[1..] + b;
      calc {
        WithoutId(a + b, id);
        h + WithoutId(a[1..] + b, id);
        { WithoutIdAppend(a[1..], b, id); }
        h + (WithoutId(a[1..], id) + WithoutId(b, id));
        (h + WithoutId(a[1..], id)) + WithoutId(b, id);
      }
    }
  }

  lemma {:induction false} WithoutIdAbsent(items: seq<Phrase>, id: string)
    requires !HasId(items, id)
    ensures WithoutId(items, id) == items
  {
    if items != [] {
      assert !HasId(items[1..], id) by {
        assert forall i :: 0 <= i < |items[1..]| ==> items[1..][i] == items[i + 1];
      }
      WithoutIdAbsent(items[1..], id);
      assert items == [items[0]] + items[1..];
    }
  }

  lemma {:induction false} WithoutIdLength(items: seq<Phrase>, id: string)
    ensures |WithoutId(items, id)| <= |items|
  {
    if items != [] {
      WithoutIdLength(items[1..], id);
    }
  }

  lemma {:induction false} WithoutIdSorted(items: seq<Phrase>, id: string)
    requires SortedDesc(items)
    ensures SortedDesc(WithoutId(items, id))
  {
    if items != [] {
      var y, rest := items[0], items[1..];
      assert SortedDesc(rest) by {
        forall i, j | 0 <= i < j < |rest| ensures rest[i].createdAt >= rest[j].createdAt {
          assert rest[i] == items[i + 1] && rest[j] == items[j + 1];
        }
      }
      WithoutIdSorted(rest, id);
      var t := WithoutId(rest, id);
      if y.id != id {
        forall k | 0 <= k < |t| ensures y.createdAt >= t[k].createdAt {
          WithoutIdMember(rest, id, t[k]);
          var m :| 0 <= m < |rest| && rest[m] == t[k];
          assert items[m + 1] == t[k];
        }
        SortedCons(y, t);
      }
    }
  }

  lemma {:induction false} WithoutIdUnique(items: seq<Phrase>, id: string)
    requires UniqueIds(items)
    ensures UniqueIds(WithoutId(items, id))
  {
    if items != [] {
      var y, rest := items[0], items[1..];
      UniqueTail(items);
      WithoutIdUnique(rest, id);
      var t := WithoutId(rest, id);
      if y.id != id {
        forall k | 0 <= k < |t| ensures t[k].id != y.id {
          WithoutIdMember(rest, id, t[k]);
          var m :| 0 <= m < |rest| && rest[m] == t[k];
        }
        UniqueCons(y, t);
      }
    }
  }

  /** `deletePhraseLocal` trims the id, ignores a blank one, and otherwise
      removes exactly the phrases with that id, keeping the rest in order. */
  lemma DeletePhrase(s: PhrasesState, raw: Option<string>)
    ensures raw.None? || Trim(raw.value) == "" ==> Reduce(s, DeletePhraseLocal(raw)) == s
    ensures raw.Some? && Trim(raw.value) != "" ==>
              var id := Trim(raw.value);
              var items := Reduce(s, DeletePhraseLocal(raw)).items;
              items == WithoutId(s.items, id)
              && (forall x :: x in items <==> x in s.items && x.id != id)
              && !HasId(items, id)
              && (SortedDesc(s.items) ==> SortedDesc(items))
              && (UniqueIds(s.items) ==> UniqueIds(items))
  {
    if raw.Some? && Trim(raw.value) != "" {
      var id := Trim(raw.value);
      var items := WithoutId(s.items, id);
      forall x ensures x in items <==> x in s.items && x.id != id {
        WithoutIdMember(s.items, id, x);
      }
      WithoutIdLength(s.items, id);
      if SortedDesc(s.items) {
        WithoutIdSorted(s.items, id);
      }
      if UniqueIds(s.items) {
        WithoutIdUnique(s.items, id);
      }
    }
  }

  /** `setAllLocal` stores an ordered copy of the payload, or nothing. */
  lemma SetAllOrders(s: PhrasesState, ps: Option<seq<Phrase>>)
    ensures var items := Reduce(s, SetAllLocal(ps)).items;
            SortedDesc(items)
            && (ps.None? ==> items == [])
            && (ps.Some? ==> multiset(items) == multiset(ps.value))
  {
  }

  // ---------------------------------------------------------------------------
  // The draft edited in place

  /** The mutable draft of the slice state that a reducer edits. */
  class Draft {
    var items: seq<Phrase>
    var query: string
    var status: Status
    var error: Option<string>

    function State(): PhrasesState
      reads this
    {
      PhrasesState(items, query, status, error)
    }

    constructor ()
      ensures State() == InitialState
    {
      items, query, status, error := [], "", Idle, None;
    }

    method SetQuery(q: string)
      modifies this
      ensures State() == Reduce(old(State()), Action.SetQuery(q))
    {
      query := q;
    }

    method AddPhraseLocal(phrase: Option<Phrase>)
      modifies this
      ensures State() == Reduce(old(State()), Action.AddPhraseLocal(phrase))
    {
      if phrase.None? || phrase.value.id == "" {
        return;
      }
      if HasId(items, phrase.value.id) {
        return;
      }
      items := items + [phrase.value];
      items := SortByCreatedAtDesc(items);
    }

    method DeletePhraseLocal(payload: Option<string>)
      modifies this
      ensures State() == Reduce(old(State()), Action.DeletePhraseLocal(payload))
    {
      if payload.None? {
        return;
      }
      var id := Trim(payload.value);
      if id == "" {
        return;
      }
      items := WithoutId(items, id);
    }

    method SetAllLocal(payload: Option<seq<Phrase>>)
      modifies this
      ensures State() == Reduce(old(State()), Action.SetAllLocal(payload))
    {
      var incoming := if payload.Some? then payload.value else [];
      if incoming == [] {
        items := [];
        return;
      }
      incoming := SortByCreatedAtDesc(incoming);
      items := incoming;
    }

    method ClearError()
      modifies this
      ensures State() == Reduce(old(State()), Action.ClearError)
    {
      error := None;
    }

    method FetchPending()
      modifies this
      ensures State() == Reduce(old(State()), Action.FetchPending)
    {
      status := Pending;
      error := None;
    }

    method FetchFulfilled(payload: seq<Phrase>)
      modifies this
      ensures State() == Reduce(old(State()), Action.FetchFulfilled(payload))
    {
      status := Succeeded;
      error := None;
      items := payload;
    }

    method FetchRejected(payload: Option<string>)
      modifies this
      ensures State() == Reduce(old(State()), Action.FetchRejected(payload))
    {
      status := Failed;
      error := Some(if payload.Some? && payload.value != "" then payload.value else LoadFailure);
    }
  }
}
