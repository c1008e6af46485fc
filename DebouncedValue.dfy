/**
 * The debounced-value engine behind the search box: the latest value, the
 * debounced value it trails, the `isDebouncing` flag and two timers on a
 * virtual clock. A change arms the quiet-period timer (re-arming it on every
 * further change) and, once, the `maxWait` timer; whichever expires first
 * delivers the latest value. `flush` delivers at once, `cancel` drops the
 * pending delivery.
 */
module DebouncedValue {
  import opened Wrappers

  const DefaultDelay := 300

  /** The hook's second argument: absent, a number (the delay itself), or an
      options object whose fields may each be absent. */
  datatype Options =
    | NoOptions
    | DelayMs(ms: int)
    | Settings(delay: Option<int>, maxWait: Option<int>, enabled: Option<bool>)

  datatype Config = Config(delay: int, maxWait: Option<int>, enabled: bool)

  /** The effective delay, `maxWait` and `enabled`. A numeric option is used as
      the delay as it is, with no `maxWait`; an object's delay defaults to 300
      and is clamped at 0; `enabled` defaults to true. */
  function Resolve(options: Options): (c: Config)
    ensures options.DelayMs? ==> c == Config(options.ms, None, true)
    ensures options.NoOptions? ==> c == Config(DefaultDelay, None, true)
    ensures options.Settings? ==>
              c.delay >= 0
              && (options.delay.Some? && options.delay.value >= 0 ==> c.delay == options.delay.value)
              && (options.delay.Some? && options.delay.value < 0 ==> c.delay == 0)
              && (options.delay.None? ==> c.delay == DefaultDelay)
              && c.maxWait == options.maxWait
              && (c.enabled <==> options.enabled != Some(false))
  {
    match options
    case NoOptions => Config(DefaultDelay, None, true)
    case DelayMs(ms) => Config(ms, None, true)
    case Settings(delay, maxWait, enabled) =>
      var d := delay.GetOr(DefaultDelay);
      Config(if d < 0 then 0 else d, maxWait, enabled.GetOr(true))
  }

  /** Whether changes are debounced at all: enabled and a positive delay. */
  predicate Active(c: Config) {
    c.enabled && c.delay > 0
  }

  /** A disabled hook and a non-positive delay both deliver every value at
      once; an omitted option debounces. */
  lemma ResolveActive(options: Options)
    ensures options.Settings? && options.enabled == Some(false) ==> !Active(Resolve(options))
    ensures options.DelayMs? && options.ms <= 0 ==> !Active(Resolve(options))
    ensures options.Settings? && options.delay.Some? && options.delay.value <= 0 ==> !Active(Resolve(options))
    ensures options.NoOptions? || options == Settings(None, None, None) ==> Active(Resolve(options))
  {
  }

  /** Whether a timer armed for one of the deadlines has expired by `t`. */
  predicate Due(quietDue: Option<int>, maxDue: Option<int>, t: int) {
    (quietDue.Some? && quietDue.value <= t) || (maxDue.Some? && maxDue.value <= t)
  }

  /** The hook's state: `latestRef`, the `debounced` and `isDebouncing`
      states, and the deadlines of `timeoutRef` and `maxTimeoutRef` (`None`
      when the timer is clear), all on the clock `now`. */
  class Debouncer<T(==)> {
    const config: Config
    var now: int
    var latest: T
    var debounced: T
    var isDebouncing: bool
    var quietDue: Option<int>
    var maxDue: Option<int>

    /** `isDebouncing` holds exactly while the quiet timer is armed; the
        `maxWait` timer is only armed beside it; both lie ahead, within their
        periods; a pending delivery always differs from what is shown; and
        without debouncing the debounced value is the latest value. */
    predicate Valid()
      reads this
    {
      (isDebouncing <==> quietDue.Some?)
      && (maxDue.Some? ==> quietDue.Some?)
      && (quietDue.Some? ==> now < quietDue.value <= now + config.delay)
      && (maxDue.Some? ==> config.maxWait.Some? && now < maxDue.value <= now + config.maxWait.value)
      && (isDebouncing ==> Active(config) && latest != debounced)
      && (!Active(config) ==> debounced == latest)
    }

    /** The first render: the debounced value starts as the value itself. */
    constructor (value: T, options: Options)
      ensures Valid()
      ensures config == Resolve(options) && now == 0
      ensures latest == value && debounced == value && !isDebouncing
      ensures quietDue.None? && maxDue.None?
    {
      config := Resolve(options);
      now := 0;
      latest := value;
      debounced := value;
      isDebouncing := false;
      quietDue := None;
      maxDue := None;
    }

    /** `cancel`: clear both timers and stop debouncing; the debounced value
        stays. Nothing is left armed, so only the last conjunct of `Valid`
        is needed beforehand. */
    method Cancel()
      requires !Active(config) ==> debounced == latest
      modifies this
      ensures Valid()
      ensures quietDue.None? && maxDue.None? && !isDebouncing
      ensures debounced == old(debounced) && latest == old(latest) && now == old(now)
    {
      quietDue := None;
      maxDue := None;
      isDebouncing := false;
    }

    /** `flush`: deliver the latest value now and clear everything pending. */
    method Flush()
      modifies this
      ensures Valid()
      ensures debounced == latest && quietDue.None? && maxDue.None? && !isDebouncing
      ensures latest == old(latest) && now == old(now)
    {
      debounced := latest;
      Cancel();
    }

    /** A render with the value `v`, followed by the effects it triggers. A
        value equal to the previous one triggers nothing. Otherwise a running
        quiet timer is cleared, and then: without debouncing the value is
        delivered at once; a value equal to the debounced one cancels all
        pending work; any other value starts (or prolongs) the quiet period
        and arms the `maxWait` timer unless it is already armed. */
    method SetValue(v: T)
      requires Valid()
      modifies this
      ensures Valid()
      ensures latest == v && now == old(now)
      ensures v == old(latest) ==>
                debounced == old(debounced) && isDebouncing == old(isDebouncing)
                && quietDue == old(quietDue) && maxDue == old(maxDue)
      ensures v != old(latest) && !Active(config) ==>
                debounced == v && !isDebouncing && quietDue.None? && maxDue.None?
      ensures v != old(latest) && Active(config) && v == old(debounced) ==>
                debounced == old(debounced) && !isDebouncing && quietDue.None? && maxDue.None?
      ensures v != old(latest) && Active(config) && v != old(debounced) ==>
                debounced == old(debounced) && isDebouncing
                && quietDue == Some(now + config.delay)
                && maxDue == (if old(maxDue).None? && config.maxWait.Some? && config.maxWait.value > 0
                              then Some(now + config.maxWait.value) else old(maxDue))
    {
      if v == latest {
        return;
      }
      latest := v;
      quietDue := None;
      if !config.enabled || config.delay <= 0 {
        debounced := v;
        isDebouncing := false;
        Cancel();
        return;
      }
      if v == debounced {
        Cancel();
        return;
      }
      isDebouncing := true;
      quietDue := Some(now + config.delay);
      if config.maxWait.Some? && config.maxWait.value > 0 && maxDue.None? {
        maxDue := Some(now + config.maxWait.value);
      }
    }

    /** Let `ms` milliseconds pass. Either timer's callback delivers the
        latest value and clears both timers (the quiet timer directly, the
        `maxWait` timer through `flush`), so at most one of them fires. */
    method Advance(ms: nat)
      requires Valid()
      modifies this
      ensures Valid()
      ensures now == old(now) + ms && latest == old(latest)
      ensures Due(old(quietDue), old(maxDue), now) ==>
                debounced == latest && !isDebouncing && quietDue.None? && maxDue.None?
      ensures !Due(old(quietDue), old(maxDue), now) ==>
                debounced == old(debounced) && isDebouncing == old(isDebouncing)
                && quietDue == old(quietDue) && maxDue == old(maxDue)
    {
      var target := now + ms;
      if Due(quietDue, maxDue, target) {
        if quietDue.Some? && quietDue.value <= target
           && (maxDue.None? || quietDue.value <= maxDue.value) {
          now := quietDue.value;
          debounced := latest;
          isDebouncing := false;
          quietDue := None;
          maxDue := None;
        } else {
          now := maxDue.value;
          Flush();
        }
      }
      now := target;
    }
  }

  // ---------------------------------------------------------------------------
  // Scenarios

  /** A change is held back for one millisecond short of the delay, and
      delivered when the delay is complete. */
  method HeldUntilDelay<T(==)>(d: Debouncer<T>, v: T)
    requires d.Valid() && Active(d.config) && d.maxDue.None? && d.config.maxWait.None?
    requires v != d.latest && v != d.debounced
    modifies d
    ensures d.Valid() && d.debounced == v && !d.isDebouncing
  {
    var shown := d.debounced;
    d.SetValue(v);
    d.Advance(d.config.delay - 1);
    assert d.debounced == shown && d.isDebouncing;
    d.Advance(1);
  }

  /** After `flush` no timer is left, so later time changes nothing. */
  method FlushIsFinal<T(==)>(d: Debouncer<T>, ms: nat)
    requires d.Valid()
    modifies d
    ensures d.Valid() && d.debounced == d.latest && !d.isDebouncing
  {
    d.Flush();
    var shown := d.debounced;
    d.Advance(ms);
    assert d.debounced == shown;
  }

  /** After `cancel` the shown value stays whatever time passes. */
  method CancelIsFinal<T(==)>(d: Debouncer<T>, ms: nat)
    requires d.Valid()
    modifies d
    ensures d.Valid() && d.debounced == old(d.debounced) && !d.isDebouncing
  {
    d.Cancel();
    d.Advance(ms);
  }

  /** With a 200 ms delay and a 500 ms `maxWait`, changes every 150 ms never
      let a quiet period end: the change at 450 ms pushes the quiet deadline
      to 650 ms, yet the `maxWait` timer delivers the latest value at 500 ms. */
  method MaxWaitDelivers(a: string, b: string, c: string, e: string, f: string) returns (d: Debouncer<string>)
    requires a != b && b != c && c != e && e != f && a != c && a != e && a != f
    ensures d.Valid() && d.debounced == f && !d.isDebouncing && d.now == 500
  {
    d := new Debouncer(a, Settings(Some(200), Some(500), None));
    d.SetValue(b);
    d.Advance(150);
    d.SetValue(c);
    d.Advance(150);
    d.SetValue(e);
    d.Advance(150);
    assert d.debounced == a && d.isDebouncing;
    d.SetValue(f);
    assert d.quietDue == Some(650) && d.maxDue == Some(500);
    d.Advance(50);
  }
}
