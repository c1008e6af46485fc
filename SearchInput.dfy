/**
 * The search box: it keeps its own text (uncontrolled), follows the `value`
 * prop (controlled), or keeps a local draft that follows the prop when the
 * parent passes a value without `onChange`. The text it shows is debounced,
 * and every new debounced text is reported once through
 * `onDebouncedChange`; Enter reports and submits the current text at once,
 * Escape clears it and reports "" at once.
 */
module SearchInput {
  import opened Wrappers
  import opened DebouncedValue

  const DefaultDebounceMs := 300

  /** Where the shown text comes from: the draft when the component is
      controlled without `onChange`, the `value` prop when it is controlled
      with `onChange`, its own text otherwise. */
  function SourceValue(controlled: bool, hasOnChange: bool, propValue: string, draft: string, inner: string): (r: string)
    ensures controlled && !hasOnChange ==> r == draft
    ensures controlled && hasOnChange ==> r == propValue
    ensures !controlled ==> r == inner
  {
    if controlled && !hasOnChange then draft else if controlled then propValue else inner
  }

  /** The debounce options the box passes: its delay, enabled only when it is
      positive. */
  function BoxOptions(debounceMs: int): (o: Options)
    ensures Active(Resolve(o)) <==> debounceMs > 0
    ensures debounceMs > 0 ==> Resolve(o).delay == debounceMs && Resolve(o).maxWait.None?
  {
    Settings(Some(debounceMs), None, Some(debounceMs > 0))
  }

  /** One mounted search box. `emitted`, `changes` and `submits` are the
      calls made to `onDebouncedChange`, `onChange` and `onSubmit`, in order;
      `propValue` is the `value` prop, meaningful when `controlled`. */
  class SearchBox {
    const controlled: bool
    const hasOnChange: bool
    const hasOnDebouncedChange: bool
    const hasOnSubmit: bool
    const debounceMs: int
    const debouncer: Debouncer<string>
    var propValue: string
    var inner: string
    var draft: string
    var lastEmitted: string
    var emitted: seq<string>
    var changes: seq<string>
    var submits: seq<string>

    function Source(): string
      reads this
    {
      SourceValue(controlled, hasOnChange, propValue, draft, inner)
    }

    /** The debouncer always trails the shown text; `lastEmittedRef` is the
        last reported text once something is reported; nothing is reported
        without a listener. */
    predicate Valid()
      reads this, debouncer
    {
      debouncer.Valid()
      && debouncer.latest == Source()
      && debouncer.config == Resolve(BoxOptions(debounceMs))
      && (emitted != [] ==> lastEmitted == emitted[|emitted| - 1])
      && (!hasOnDebouncedChange ==> emitted == [])
      && (!hasOnChange ==> changes == [])
      && (!hasOnSubmit ==> submits == [])
    }

    /** The first render. `value` is `None` when the prop is absent. */
    constructor (value: Option<string>, defaultValue: Option<string>, hasOnChange: bool,
                 hasOnDebouncedChange: bool, hasOnSubmit: bool, debounceMs: Option<int>)
      ensures Valid() && fresh(debouncer)
      ensures controlled == value.Some? && inner == defaultValue.GetOr("") && propValue == value.GetOr("")
      ensures this.hasOnChange == hasOnChange && this.hasOnDebouncedChange == hasOnDebouncedChange
      ensures this.hasOnSubmit == hasOnSubmit && debouncer.now == 0
      ensures draft == (if value.Some? then value.value else defaultValue.GetOr(""))
      ensures this.debounceMs == debounceMs.GetOr(DefaultDebounceMs)
      ensures debouncer.debounced == Source() && lastEmitted == Source()
      ensures emitted == [] && changes == [] && submits == []
    {
      controlled := value.Some?;
      this.hasOnChange := hasOnChange;
      this.hasOnDebouncedChange := hasOnDebouncedChange;
      this.hasOnSubmit := hasOnSubmit;
      var ms := debounceMs.GetOr(DefaultDebounceMs);
      this.debounceMs := ms;
      propValue := value.GetOr("");
      inner := defaultValue.GetOr("");
      var d := if value.Some? then value.value else defaultValue.GetOr("");
      draft := d;
      var source := SourceValue(value.Some?, hasOnChange, value.GetOr(""), d, defaultValue.GetOr(""));
      debouncer := new Debouncer(source, BoxOptions(ms));
      lastEmitted := source;
      emitted := [];
      changes := [];
      submits := [];
    }

    /** The effect reporting the debounced text: it runs when the debounced
        text has changed (from `before`) and reports it unless it was the
        last one reported. */
    method ReportDebounced(before: string)
      requires Valid()
      modifies this
      ensures Valid()
      ensures var d := debouncer.debounced;
              if d != before && hasOnDebouncedChange && d != old(lastEmitted)
              then lastEmitted == d && emitted == old(emitted) + [d]
              else lastEmitted == old(lastEmitted) && emitted == old(emitted)
      ensures propValue == old(propValue) && inner == old(inner) && draft == old(draft)
      ensures changes == old(changes) && submits == old(submits)
    {
      var d := debouncer.debounced;
      if d == before || !hasOnDebouncedChange || d == lastEmitted {
        return;
      }
      lastEmitted := d;
      emitted := emitted + [d];
    }

    /** The render that follows a state change: the debouncer sees the new
        text, then the report effect runs. */
    method Render(before: string)
      requires debouncer.Valid() && debouncer.config == Resolve(BoxOptions(debounceMs))
      requires (emitted != [] ==> lastEmitted == emitted[|emitted| - 1])
      requires (!hasOnDebouncedChange ==> emitted == []) && (!hasOnChange ==> changes == [])
      requires !hasOnSubmit ==> submits == []
      modifies this, debouncer
      ensures Valid()
      ensures propValue == old(propValue) && inner == old(inner) && draft == old(draft)
      ensures changes == old(changes) && submits == old(submits)
      ensures debouncer.now == old(debouncer.now)
      ensures debouncer.latest == Source()
      ensures old(debouncer.latest) == Source() ==>
                debouncer.debounced == old(debouncer.debounced)
                && debouncer.isDebouncing == old(debouncer.isDebouncing)
                && debouncer.quietDue == old(debouncer.quietDue) && debouncer.maxDue == old(debouncer.maxDue)
      ensures !Active(debouncer.config) ==> debouncer.debounced == Source()
      ensures Active(debouncer.config) ==> debouncer.debounced == old(debouncer.debounced)
      ensures Active(debouncer.config) && old(debouncer.latest) != Source() ==>
                debouncer.isDebouncing == (Source() != debouncer.debounced)
                && (debouncer.isDebouncing ==> debouncer.quietDue == Some(debouncer.now + debouncer.config.delay))
      ensures var d := debouncer.debounced;
              if d != before && hasOnDebouncedChange && d != old(lastEmitted)
              then lastEmitted == d && emitted == old(emitted) + [d]
              else lastEmitted == old(lastEmitted) && emitted == old(emitted)
    {
      debouncer.SetValue(Source());
      ReportDebounced(before);
    }

    /** The parent re-renders with the `value` prop `v`; a draft follows a
        changed prop. */
    method SetProp(v: string)
      requires Valid()
      modifies this, debouncer
      ensures Valid()
      ensures propValue == v && inner == old(inner)
      ensures draft == (if controlled && !hasOnChange && v != old(propValue) then v else old(draft))
      ensures changes == old(changes) && submits == old(submits)
      ensures debouncer.now == old(debouncer.now) && debouncer.maxDue.None?
      ensures old(debouncer.latest) == Source() ==>
                debouncer.debounced == old(debouncer.debounced) && debouncer.isDebouncing == old(debouncer.isDebouncing)
                && debouncer.quietDue == old(debouncer.quietDue)
                && emitted == old(emitted) && lastEmitted == old(lastEmitted)
      ensures debounceMs > 0 ==>
                debouncer.debounced == old(debouncer.debounced)
                && emitted == old(emitted) && lastEmitted == old(lastEmitted)
      ensures debounceMs > 0 && old(debouncer.latest) != Source() ==>
                debouncer.isDebouncing == (Source() != debouncer.debounced)
                && (debouncer.isDebouncing ==> debouncer.quietDue == Some(debouncer.now + debounceMs))
                && (!debouncer.isDebouncing ==> debouncer.quietDue.None?)
      ensures debounceMs <= 0 ==>
                debouncer.debounced == Source() && !debouncer.isDebouncing
                && (if hasOnDebouncedChange && Source() != old(debouncer.debounced) && Source() != old(lastEmitted)
                    then emitted == old(emitted) + [Source()] && lastEmitted == Source()
                    else emitted == old(emitted) && lastEmitted == old(lastEmitted))
    {
      var before := debouncer.debounced;
      if v != propValue {
        propValue := v;
        if controlled && !hasOnChange && v != draft {
          draft := v;
        }
      }
      Render(before);
    }

    /** `handleChange` with the typed text `next`. With no positive delay the
        text is reported at once, and only once. */
    method Change(next: string)
      requires Valid()
      modifies this, debouncer
      ensures Valid()
      ensures draft == (if controlled && !hasOnChange then next else old(draft))
      ensures inner == (if !controlled then next else old(inner)) && propValue == old(propValue)
      ensures changes == old(changes) + (if hasOnChange then [next] else [])
      ensures debounceMs <= 0 && hasOnDebouncedChange ==> emitted == old(emitted) + [next] && lastEmitted == next
      ensures debounceMs > 0 ==>
                emitted == old(emitted) && lastEmitted == old(lastEmitted)
                && debouncer.debounced == old(debouncer.debounced)
      ensures debounceMs > 0 && old(debouncer.latest) != Source() ==>
                debouncer.isDebouncing == (Source() != debouncer.debounced)
                && (debouncer.isDebouncing ==> debouncer.quietDue == Some(debouncer.now + debounceMs))
      ensures Source() == old(Source()) ==>
                debouncer.debounced == old(debouncer.debounced) && debouncer.isDebouncing == old(debouncer.isDebouncing)
                && debouncer.quietDue == old(debouncer.quietDue) && debouncer.maxDue == old(debouncer.maxDue)
      ensures debouncer.now == old(debouncer.now)
      ensures submits == old(submits)
    {
      var before := debouncer.debounced;
      if controlled && !hasOnChange {
        draft := next;
      }
      if !controlled {
        inner := next;
      }
      if hasOnChange {
        changes := changes + [next];
      }
      if debounceMs <= 0 && hasOnDebouncedChange {
        lastEmitted := next;
        emitted := emitted + [next];
      }
      Render(before);
    }

    /** `handleKeyDown` with Enter: flush, report the current text and submit
        it. */
    method Enter()
      requires Valid()
      modifies this, debouncer
      ensures Valid()
      ensures debouncer.debounced == Source() && !debouncer.isDebouncing
      ensures emitted == old(emitted) + (if hasOnDebouncedChange then [Source()] else [])
      ensures submits == old(submits) + (if hasOnSubmit then [Source()] else [])
      ensures propValue == old(propValue) && inner == old(inner) && draft == old(draft)
      ensures changes == old(changes)
      ensures debouncer.now == old(debouncer.now)
    {
      var before := debouncer.debounced;
      debouncer.Flush();
      var current := Source();
      if hasOnDebouncedChange {
        lastEmitted := current;
        emitted := emitted + [current];
      }
      if hasOnSubmit {
        submits := submits + [current];
      }
      Render(before);
    }

    /** `handleKeyDown` with Escape: clear the text, tell `onChange`, drop the
        pending debounce and report "" at once. */
    method Escape()
      requires Valid()
      modifies this, debouncer
      ensures Valid()
      ensures draft == (if controlled && !hasOnChange then "" else old(draft))
      ensures inner == (if !controlled then "" else old(inner)) && propValue == old(propValue)
      ensures changes == old(changes) + (if hasOnChange then [""] else [])
      ensures emitted == old(emitted) + (if hasOnDebouncedChange then [""] else [])
      ensures lastEmitted == (if hasOnDebouncedChange then "" else old(lastEmitted))
      ensures submits == old(submits)
      ensures debouncer.now == old(debouncer.now) && debouncer.maxDue.None?
      ensures old(debouncer.latest) == Source() ==>
                debouncer.quietDue.None? && !debouncer.isDebouncing
                && debouncer.debounced == old(debouncer.debounced)
      ensures debounceMs > 0 ==> debouncer.debounced == old(debouncer.debounced)
      ensures debounceMs > 0 && old(debouncer.latest) != Source() ==>
                debouncer.isDebouncing == (Source() != debouncer.debounced)
                && (debouncer.isDebouncing ==> debouncer.quietDue == Some(debouncer.now + debounceMs))
                && (!debouncer.isDebouncing ==> debouncer.quietDue.None?)
      ensures debounceMs <= 0 ==> debouncer.debounced == Source() && !debouncer.isDebouncing
      ensures debouncer.isDebouncing ==> debouncer.latest == ""
    {
      var before := debouncer.debounced;
      if controlled && !hasOnChange {
        draft := "";
      }
      if !controlled {
        inner := "";
      }
      if hasOnChange {
        changes := changes + [""];
      }
      debouncer.Cancel();
      if hasOnDebouncedChange {
        lastEmitted := "";
        emitted := emitted + [""];
      }
      Render(before);
    }

    /** Time passes; a delivered debounced text is reported. */
    method Advance(ms: nat)
      requires Valid()
      modifies this, debouncer
      ensures Valid()
      ensures propValue == old(propValue) && inner == old(inner) && draft == old(draft)
      ensures changes == old(changes) && submits == old(submits)
      ensures debouncer.now == old(debouncer.now) + ms && debouncer.latest == old(debouncer.latest)
      ensures Due(old(debouncer.quietDue), old(debouncer.maxDue), debouncer.now) ==>
                debouncer.debounced == debouncer.latest && !debouncer.isDebouncing
                && debouncer.quietDue.None? && debouncer.maxDue.None?
                && (if hasOnDebouncedChange && debouncer.latest != old(debouncer.debounced)
                       && debouncer.latest != old(lastEmitted)
                    then emitted == old(emitted) + [debouncer.latest] && lastEmitted == debouncer.latest
                    else emitted == old(emitted) && lastEmitted == old(lastEmitted))
      ensures !Due(old(debouncer.quietDue), old(debouncer.maxDue), debouncer.now) ==>
                debouncer.debounced == old(debouncer.debounced) && debouncer.isDebouncing == old(debouncer.isDebouncing)
                && debouncer.quietDue == old(debouncer.quietDue) && debouncer.maxDue == old(debouncer.maxDue)
                && emitted == old(emitted) && lastEmitted == old(lastEmitted)
    {
      var before := debouncer.debounced;
      debouncer.Advance(ms);
      ReportDebounced(before);
    }
  }

  // ---------------------------------------------------------------------------
  // Scenarios

  /** Two changes 200 ms apart with a 300 ms delay produce one report, of the
      last text, 300 ms after the last change. */
  method RapidChangesReportOnce() returns (box: SearchBox)
    ensures box.Valid() && box.emitted == ["abcdef"]
  {
    box := new SearchBox(None, None, false, true, false, Some(300));
    assert box.debouncer.config.maxWait.None?;
    box.Change("abc");
    assert box.debouncer.quietDue == Some(300) && box.debouncer.maxDue.None?;
    box.Advance(200);
    assert box.emitted == [] && box.debouncer.debounced == "";
    box.Change("abcdef");
    assert box.debouncer.quietDue == Some(500) && box.debouncer.maxDue.None?;
    box.Advance(200);
    assert box.emitted == [] && box.debouncer.debounced == "" && box.lastEmitted == "";
    box.Advance(100);
  }

  /** A controlled box with `onChange` whose parent passes a new text, then
      Escape: the pending debounce is dropped, so the stale text is never
      reported however long one waits. */
  method EscapeDropsPending(wait: nat) returns (box: SearchBox)
    ensures box.Valid() && box.emitted == [""] && !box.debouncer.isDebouncing
  {
    box := new SearchBox(Some(""), None, true, true, false, Some(300));
    box.SetProp("abc");
    assert box.debouncer.isDebouncing && box.emitted == [];
    box.Escape();
    assert box.emitted == [""] && box.debouncer.quietDue.None?;
    box.Advance(wait);
  }

  /** With a zero delay every change is reported as it is typed. */
  method ZeroDelayReportsAtOnce() returns (box: SearchBox)
    ensures box.Valid() && box.emitted == ["te", "test"] && box.changes == ["te", "test"]
  {
    box := new SearchBox(None, None, true, true, false, Some(0));
    box.Change("te");
    box.Change("test");
  }
}
