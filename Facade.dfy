/**
 * The phrases facade: the use cases the screens call. It reads the slice
 * state through the selectors and dispatches slice actions, keeps a handle
 * on the latest `fetchPhrases` request so that a new load or an unmount
 * aborts it, starts the first load once, and guards its commands so that a
 * command that would change nothing dispatches nothing.
 */
module Facade {
  import opened Wrappers
  import opened JsValues
  import opened Phrases
  import opened PhrasesSlice
  import opened PhrasesSelectors
  import opened Http

  // ---------------------------------------------------------------------------
  // Identifiers for new phrases

  /** `Number(id)` when it is a finite number. */
  function NumericId(p: Phrase): Option<int> {
    match ParseNumber(p.id)
    case Finite(n) => Some(n)
    case _ => None
  }

  /** The numeric reading of each id, position by position. */
  function NumericIds(items: seq<Phrase>): (ns: seq<Option<int>>)
    ensures |ns| == |items|
  {
    seq(|items|, i requires 0 <= i < |items| => NumericId(items[i]))
  }

  /** The running maximum over the numbers present, starting from 0. */
  function MaxOf(ns: seq<Option<int>>): (m: int)
    ensures m >= 0
  {
    if ns == [] then 0
    else
      var m := MaxOf(ns[..|ns| - 1]);
      var n := ns[|ns| - 1];
      if n.Some? && n.value > m then n.value else m
  }

  /** The maximum bounds every number present, and is 0 or one of them. */
  lemma {:induction false} MaxOfBounds(ns: seq<Option<int>>)
    ensures forall i :: 0 <= i < |ns| && ns[i].Some? ==> ns[i].value <= MaxOf(ns)
    ensures MaxOf(ns) == 0 || exists i :: 0 <= i < |ns| && ns[i] == Some(MaxOf(ns))
  {
    if ns != [] {
      var prefix := ns[..|ns| - 1];
      MaxOfBounds(prefix);
      assert forall i :: 0 <= i < |prefix| ==> prefix[i] == ns[i];
      if MaxOf(ns) != 0 && MaxOf(ns) == MaxOf(prefix) {
        var k :| 0 <= k < |prefix| && prefix[k] == Some(MaxOf(prefix));
        assert ns[k] == prefix[k];
      }
    }
  }

  /** The largest finite numeric id of the list, or 0 when it has none larger:
      the value `nextIdFrom`'s running maximum ends with. */
  function MaxNumericId(items: seq<Phrase>): (m: int)
    ensures m >= 0
  {
    MaxOf(NumericIds(items))
  }

  /** The maximum bounds every numeric id of the list, and is 0 or one of
      them. */
  lemma MaxNumericIdBounds(items: seq<Phrase>)
    ensures forall i :: 0 <= i < |items| && NumericId(items[i]).Some? ==> NumericId(items[i]).value <= MaxNumericId(items)
    ensures MaxNumericId(items) == 0 || exists i :: 0 <= i < |items| && NumericId(items[i]) == Some(MaxNumericId(items))
  {
    var ns := NumericIds(items);
    MaxOfBounds(ns);
    assert forall i :: 0 <= i < |items| ==> ns[i] == NumericId(items[i]);
  }

  /** `nextIdFrom(items)`: one more than the largest numeric id, as a string. */
  method NextIdFrom(items: seq<Phrase>) returns (id: string)
    ensures id == IntToString(MaxNumericId(items) + 1)
  {
    if |items| == 0 {
      return "1";
    }
    ghost var ns := NumericIds(items);
    var max := 0;
    var i := 0;
    while i < |items|
      invariant 0 <= i <= |items|
      invariant max == MaxOf(ns[..i])
    {
      assert ns[..i + 1][..i] == ns[..i];
      assert ns[i] == NumericId(items[i]);
      var n := ParseNumber(items[i].id);
      if n.Finite? && n.value > max {
        max := n.value;
      }
      i := i + 1;
    }
    assert ns[..i] == ns;
    var next := max + 1;
    id := IntToString(if next > 0 then next else 1);
  }

  /** The first phrase of an empty list gets the id "1". */
  lemma NextIdOfEmpty()
    ensures IntToString(MaxNumericId([]) + 1) == "1"
  {
  }

  /** The new id is a positive number above every numeric id of the list, so
      no phrase of the list has it. */
  lemma NextIdFresh(items: seq<Phrase>)
    ensures var id := IntToString(MaxNumericId(items) + 1);
            ParseNumber(id).Finite? && ParseNumber(id).value >= 1
            && (forall i :: 0 <= i < |items| && NumericId(items[i]).Some? ==> NumericId(items[i]).value < ParseNumber(id).value)
            && !HasId(items, id)
  {
    var m := MaxNumericId(items);
    var id := IntToString(m + 1);
    MaxNumericIdBounds(items);
    IntToStringRoundTrip(m + 1);
    forall i | 0 <= i < |items| ensures items[i].id != id {
      var n := NumericId(items[i]);
      if n.Some? {
        assert n.value <= m;
        assert ParseNumber(items[i].id) == Finite(n.value);
      } else {
        assert !ParseNumber(items[i].id).Finite?;
      }
    }
  }

  // ---------------------------------------------------------------------------
  // Status flags

  datatype Flags = Flags(isLoading: bool, isLoaded: bool, isIdle: bool, isError: bool)

  /** The boolean flags derived from the status. */
  function StatusFlags(status: Status): (f: Flags)
    ensures f.isLoading <==> status == Pending
    ensures f.isLoaded <==> status == Succeeded
    ensures f.isIdle <==> status == Idle
    ensures f.isError <==> status == Failed
  {
    Flags(status == Pending, status == Succeeded, status == Idle, status == Failed)
  }

  /** Exactly one flag holds, and the flags tell the status apart. */
  lemma FlagsExactlyOne(status: Status, other: Status)
    ensures var f := StatusFlags(status);
            (if f.isLoading then 1 else 0) + (if f.isLoaded then 1 else 0)
            + (if f.isIdle then 1 else 0) + (if f.isError then 1 else 0) == 1
    ensures StatusFlags(status) == StatusFlags(other) ==> status == other
  {
  }

  // ---------------------------------------------------------------------------
  // The facade

  /** A dispatched `fetchPhrases` request: still running, aborted before it
      settled, or settled. */
  datatype Request = InFlight | Aborted | Done

  /** `promise.abort()`: only a running request is affected. */
  function AbortAt(requests: seq<Request>, i: nat): (r: seq<Request>)
    ensures |r| == |requests|
    ensures forall j :: 0 <= j < |r| && j != i ==> r[j] == requests[j]
    ensures i < |r| ==> r[i] == (if requests[i] == InFlight then Aborted else requests[i])
  {
    if i < |requests| && requests[i] == InFlight then requests[i := Aborted] else requests
  }

  /** The facade as one mounted hook sees it: the store's slice state, the
      requests it has dispatched, the `lastFetchRef` handle (an index into
      `requests`) and the `didInitRef` flag. */
  class PhrasesFacade {
    var state: PhrasesState
    var requests: seq<Request>
    var lastFetch: Option<nat>
    var didInit: bool

    /** The handle names the latest request, and every earlier request has
        been aborted or has settled: at most one load runs at a time. */
    predicate Valid()
      reads this
    {
      (lastFetch.None? <==> requests == [])
      && (lastFetch.Some? ==> lastFetch.value == |requests| - 1)
      && forall i :: 0 <= i < |requests| - 1 ==> requests[i] != InFlight
    }

    /** The first render: empty refs over the store's current state. */
    constructor (state: PhrasesState)
      ensures Valid()
      ensures this.state == state && requests == [] && lastFetch == None && !didInit
    {
      this.state := state;
      requests := [];
      lastFetch := None;
      didInit := false;
    }

    method Dispatch(a: Action)
      modifies this
      ensures state == Reduce(old(state), a)
      ensures requests == old(requests) && lastFetch == old(lastFetch) && didInit == old(didInit)
    {
      state := Reduce(state, a);
    }

    /** `load`: abort the previous request, dispatch a new one (its pending
        action is dispatched at once) and keep its handle. */
    method Load()
      requires Valid()
      modifies this
      ensures Valid()
      ensures requests == (if old(lastFetch).Some? then AbortAt(old(requests), old(lastFetch).value)
                           else old(requests)) + [InFlight]
      ensures lastFetch == Some(|old(requests)|)
      ensures state == Reduce(old(state), FetchPending) && didInit == old(didInit)
    {
      if lastFetch.Some? {
        requests := AbortAt(requests, lastFetch.value);
      }
      requests := requests + [InFlight];
      lastFetch := Some(|requests| - 1);
      Dispatch(FetchPending);
    }

    /** `cancelLoad`, also the unmount cleanup: abort the latest request if
        there is one. */
    method CancelLoad()
      requires Valid()
      modifies this
      ensures Valid()
      ensures old(lastFetch).None? ==> requests == old(requests)
      ensures old(lastFetch).Some? ==> requests == AbortAt(old(requests), old(lastFetch).value)
      ensures forall i :: 0 <= i < |requests| ==> requests[i] != InFlight
      ensures state == old(state) && lastFetch == old(lastFetch) && didInit == old(didInit)
    {
      if lastFetch.None? {
        return;
      }
      requests := AbortAt(requests, lastFetch.value);
    }

    /** Request `i` settles with the listing's outcome. An aborted request
        rejects without a value whatever the listing did. There is no check
        that `i` is still the latest request: a stale request's action
        reaches the store like any other. */
    method Settle(i: nat, listed: Result<seq<Phrase>, Thrown>)
      requires Valid() && i < |requests|
      modifies this
      ensures Valid()
      ensures old(requests[i]) == Done ==> state == old(state) && requests == old(requests)
      ensures old(requests[i]) != Done ==>
                state == Reduce(old(state), SettledAction(old(requests[i]) == Aborted, listed))
                && requests == old(requests)[i := Done]
      ensures lastFetch == old(lastFetch) && didInit == old(didInit)
    {
      if requests[i] == Done {
        return;
      }
      var abortedFirst := requests[i] == Aborted;
      requests := requests[i := Done];
      Dispatch(SettledAction(abortedFirst, listed));
    }

    /** The first-load effect: runs on every change of the status, loads
        only the first time and only from `Idle`. */
    method InitEffect()
      requires Valid()
      modifies this
      ensures Valid() && didInit
      ensures !old(didInit) && old(state.status) == Idle ==>
                |requests| == |old(requests)| + 1 && requests[|old(requests)|] == InFlight
                && lastFetch == Some(|old(requests)|) && state == Reduce(old(state), FetchPending)
      ensures old(didInit) || old(state.status) != Idle ==>
                requests == old(requests) && state == old(state) && lastFetch == old(lastFetch)
    {
      if didInit {
        return;
      }
      didInit := true;
      if state.status == Idle {
        Load();
      }
    }

    /** `updateQuery(value)`: nothing is dispatched for the current query. */
    method UpdateQuery(value: string)
      requires Valid()
      modifies this
      ensures Valid()
      ensures state == Reduce(old(state), SetQuery(value)) && state.query == value
      ensures value == old(state.query) ==> state == old(state)
      ensures requests == old(requests) && lastFetch == old(lastFetch) && didInit == old(didInit)
    {
      if value == state.query {
        return;
      }
      Dispatch(SetQuery(value));
    }

    /** `resetQuery`: clear the query unless it is already empty. */
    method ResetQuery()
      requires Valid()
      modifies this
      ensures Valid()
      ensures state == old(state).(query := "")
      ensures requests == old(requests) && lastFetch == old(lastFetch) && didInit == old(didInit)
    {
      if state.query == "" {
        return;
      }
      Dispatch(SetQuery(""));
    }

    /** `addPhrase(text, now)`: a blank text adds nothing; otherwise a phrase
        with the trimmed text, the next id and the current time is added to
        the store and returned. `None` for `text` is `null`/`undefined`. */
    method AddPhrase(text: Option<string>, now: int) returns (added: Option<Phrase>)
      requires Valid()
      modifies this
      ensures Valid()
      ensures Trim(text.GetOr("")) == "" ==> added.None? && state == old(state)
      ensures Trim(text.GetOr("")) != "" ==>
                added == Some(Phrase(IntToString(MaxNumericId(SelectAllItems(old(state))) + 1),
                                     Trim(text.GetOr("")), now))
                && state == Reduce(old(state), AddPhraseLocal(added))
      ensures requests == old(requests) && lastFetch == old(lastFetch) && didInit == old(didInit)
    {
      var t := Trim(text.GetOr(""));
      if t == "" {
        return None;
      }
      var id := NextIdFrom(SelectAllItems(state));
      added := Some(Phrase(id, t, now));
      Dispatch(AddPhraseLocal(added));
    }

    /** `removeById(id)`: a blank id dispatches nothing. */
    method RemoveById(id: Option<string>)
      requires Valid()
      modifies this
      ensures Valid()
      ensures Trim(id.GetOr("")) == "" ==> state == old(state)
      ensures Trim(id.GetOr("")) != "" ==> state == Reduce(old(state), DeletePhraseLocal(Some(Trim(id.GetOr("")))))
      ensures requests == old(requests) && lastFetch == old(lastFetch) && didInit == old(didInit)
    {
      var clean := Trim(id.GetOr(""));
      if clean == "" {
        return;
      }
      Dispatch(DeletePhraseLocal(Some(clean)));
    }

    /** `dismissError`: clear the error unless there is none (an empty message
        counts as none). */
    method DismissError()
      requires Valid()
      modifies this
      ensures Valid()
      ensures old(state.error).None? || old(state.error) == Some("") ==> state == old(state)
      ensures old(state.error).Some? && old(state.error) != Some("") ==> state == old(state).(error := None)
      ensures requests == old(requests) && lastFetch == old(lastFetch) && didInit == old(didInit)
    {
      if state.error.None? || state.error.value == "" {
        return;
      }
      Dispatch(ClearError);
    }
  }

  /** Mounting from `Idle` and running the effect again, as a status change
      does, dispatches one request only. */
  method InitOnlyOnce(f: PhrasesFacade)
    requires f.Valid() && !f.didInit && f.state.status == Idle
    modifies f
    ensures f.Valid() && |f.requests| == |old(f.requests)| + 1 && f.state.status == Pending
  {
    f.InitEffect();
    f.InitEffect();
  }

  /** A reload while a request runs aborts it, and the aborted request's
      rejection still reaches the store after the new request has started:
      the store shows the failure until the new request settles. */
  method ReloadWhileLoading(f: PhrasesFacade, listed: Result<seq<Phrase>, Thrown>)
    requires f.Valid() && f.requests == [InFlight]
    modifies f
    ensures f.Valid() && f.requests == [Done, InFlight] && f.lastFetch == Some(1)
    ensures f.state.status == Failed && f.state.error == Some(LoadFailure)
  {
    f.Load();
    f.Settle(0, listed);
  }

  // ---------------------------------------------------------------------------
  // Properties of the commands, on state values

  /** The phrase `addPhrase` builds from a non-blank text is always added:
      its id is fresh, so the list grows by exactly that phrase. */
  lemma AddPhraseAlwaysAdds(s: PhrasesState, t: string, now: int)
    requires Trim(t) != ""
    ensures var p := Phrase(IntToString(MaxNumericId(SelectAllItems(s)) + 1), Trim(t), now);
            var items := Reduce(s, AddPhraseLocal(Some(p))).items;
            |items| == |s.items| + 1 && multiset(items) == multiset(s.items) + multiset{p}
  {
    var all := SelectAllItems(s);
    var id := IntToString(MaxNumericId(all) + 1);
    NextIdFresh(all);
    forall i | 0 <= i < |s.items| ensures s.items[i].id != id {
      var x := s.items[i];
      if |s.items| > 1 {
        SortMember(s.items, x);
      }
      var k :| 0 <= k < |all| && all[k] == x;
    }
    AddPhraseInserts(s, Phrase(id, Trim(t), now));
  }

  /** Removing a phrase by a padded id removes exactly the phrases with the
      trimmed id. */
  lemma RemoveByIdRemoves(s: PhrasesState, raw: string)
    requires Trim(raw) != ""
    ensures var items := Reduce(s, DeletePhraseLocal(Some(Trim(raw)))).items;
            (forall x :: x in items <==> x in s.items && x.id != Trim(raw)) && !HasId(items, Trim(raw))
  {
    TrimIdempotent(raw);
    DeletePhrase(s, Some(Trim(raw)));
  }
}
