/**
 * The error boundary that guards a block of the page: it records the first
 * error a child throws, reports it once to `onError`, renders a fallback in
 * its place until reset, and on reset remounts the children under a new key.
 * `withErrorBoundary` wraps a component in one, naming the wrapper after it
 * and copying over its own static members except React's.
 */
module ErrorBoundary {
  import opened Wrappers
  import opened JsValues

  /** The props that choose the fallback: whether `fallbackRender` is a
      function, and the `fallback` node (`None` when null or absent), here
      named by its text. */
  datatype BoundaryProps = BoundaryProps(hasFallbackRender: bool, fallback: Option<string>)

  /** What `render` produces. */
  datatype View =
    | RenderedFallback(error: JsValue)
    | StaticFallback(node: string)
    /** The default alert, showing the error's message. */
    | DefaultFallback(message: JsValue)
    /** The children inside a fragment keyed by the reset counter. */
    | Children(key: nat)

  /** A call made to one of the callbacks. */
  datatype Callback = OnError(error: JsValue, componentStack: string) | OnReset

  /** The branch `render` takes for a state. */
  function RenderView(hasError: bool, error: JsValue, resetKey: nat, props: BoundaryProps): (v: View)
    ensures v.Children? <==> !(hasError && Truthy(error))
    ensures v.Children? ==> v.key == resetKey
    ensures hasError && Truthy(error) ==>
              (props.hasFallbackRender ==> v == RenderedFallback(error))
              && (!props.hasFallbackRender && props.fallback.Some? ==> v == StaticFallback(props.fallback.value))
              && (!props.hasFallbackRender && props.fallback.None? ==> v == DefaultFallback(Prop(error, "message")))
  {
    if hasError && Truthy(error) then
      if props.hasFallbackRender then RenderedFallback(error)
      else if props.fallback.Some? then StaticFallback(props.fallback.value)
      else DefaultFallback(Prop(error, "message"))
    else Children(resetKey)
  }

  /** The error state leaves the children only for a truthy error, and a
      fallback never shows the children. */
  lemma RenderFallbackPriority(error: JsValue, resetKey: nat, node: string)
    requires Truthy(error)
    ensures RenderView(true, error, resetKey, BoundaryProps(true, Some(node))) == RenderedFallback(error)
    ensures RenderView(true, error, resetKey, BoundaryProps(false, Some(node))) == StaticFallback(node)
    ensures RenderView(false, error, resetKey, BoundaryProps(true, Some(node))) == Children(resetKey)
  {
  }

  class ErrorBoundary {
    const props: BoundaryProps
    const hasOnError: bool
    const hasOnReset: bool
    var hasError: bool
    var error: JsValue
    var resetKey: nat
    /** The calls made to `onError` and `onReset`, in order. */
    var calls: seq<Callback>

    /** The initial state: no error, key 0. */
    constructor (props: BoundaryProps, hasOnError: bool, hasOnReset: bool)
      ensures this.props == props && this.hasOnError == hasOnError && this.hasOnReset == hasOnReset
      ensures !hasError && error == JNull && resetKey == 0 && calls == []
    {
      this.props := props;
      this.hasOnError := hasOnError;
      this.hasOnReset := hasOnReset;
      hasError := false;
      error := JNull;
      resetKey := 0;
      calls := [];
    }

    function View(): View
      reads this
    {
      RenderView(hasError, error, resetKey, props)
    }

    /** A child throws `thrown` while rendering: `getDerivedStateFromError`
        stores it, then `componentDidCatch` reports it once. */
    method Catch(thrown: JsValue, componentStack: Option<string>)
      modifies this
      ensures hasError && error == thrown && resetKey == old(resetKey)
      ensures calls == old(calls) + (if hasOnError then [OnError(thrown, componentStack.GetOr(""))] else [])
    {
      hasError := true;
      error := thrown;
      if hasOnError {
        calls := calls + [OnError(thrown, componentStack.GetOr(""))];
      }
    }

    /** `handleReset`: clear the error, bump the key by one, then call
        `onReset`. */
    method Reset()
      modifies this
      ensures !hasError && error == JNull && resetKey == old(resetKey) + 1
      ensures calls == old(calls) + (if hasOnReset then [OnReset] else [])
      ensures View() == Children(old(resetKey) + 1)
    {
      hasError := false;
      error := JNull;
      resetKey := resetKey + 1;
      if hasOnReset {
        calls := calls + [OnReset];
      }
    }
  }

  /** A child that throws and then recovers: one `onError` call, then after
      the reset the children render again under a new key. */
  method ThrowThenRetry(message: string) returns (b: ErrorBoundary)
    ensures b.calls == [OnError(JObject([Member("message", JStr(message))]), ""), OnReset]
    ensures b.View() == Children(1)
  {
    b := new ErrorBoundary(BoundaryProps(false, None), true, true);
    var thrown := JObject([Member("message", JStr(message))]);
    b.Catch(thrown, None);
    assert b.View() == DefaultFallback(JStr(message));
    b.Reset();
  }

  // ---------------------------------------------------------------------------
  // withErrorBoundary

  /** The statics a wrapper must not take over from the wrapped component. */
  const ReactStatics: set<string> := {
    "childContextTypes", "contextType", "contextTypes", "defaultProps", "displayName",
    "getDefaultProps", "getDerivedStateFromError", "getDerivedStateFromProps", "mixins",
    "propTypes", "type", "name", "length", "prototype"
  }

  /** Whether the key is copied: not a React static, and not a key of the
      target whose redefinition throws (`locked`), which the copy skips. */
  predicate Hoistable(key: string, locked: set<string>) {
    key !in ReactStatics && key !in locked
  }

  /** The target after copying the source's own properties named in `keys`,
      in order. */
  function Hoisted<V>(target: map<string, V>, source: map<string, V>, keys: seq<string>, locked: set<string>): map<string, V>
    requires forall i :: 0 <= i < |keys| ==> keys[i] in source
  {
    if keys == [] then target
    else
      var before := Hoisted(target, source, keys[..|keys| - 1], locked);
      var k := keys[|keys| - 1];
      if Hoistable(k, locked) then before[k := source[k]] else before
  }

  /** `hoistNonReactStatics(target, source)`; `keys` are the source's own
      property names. */
  method HoistNonReactStatics<V>(target: map<string, V>, source: map<string, V>, keys: seq<string>, locked: set<string>)
      returns (r: map<string, V>)
    requires forall i :: 0 <= i < |keys| ==> keys[i] in source
    ensures r == Hoisted(target, source, keys, locked)
  {
    r := target;
    var i := 0;
    while i < |keys|
      invariant 0 <= i <= |keys|
      invariant r == Hoisted(target, source, keys[..i], locked)
    {
      assert keys[..i + 1][..i] == keys[..i];
      var key := keys[i];
      if key !in ReactStatics && key !in locked {
        r := r[key := source[key]];
      }
      i := i + 1;
    }
    assert keys[..i] == keys;
  }

  /** Copying never touches a React static or a locked key, copies every
      other listed key with the source's value, and leaves unlisted keys as
      they were. */
  lemma {:induction false} HoistedFacts<V>(target: map<string, V>, source: map<string, V>, keys: seq<string>, locked: set<string>, k: string)
    requires forall i :: 0 <= i < |keys| ==> keys[i] in source
    ensures var r := Hoisted(target, source, keys, locked);
            (!Hoistable(k, locked) || k !in keys ==> (k in r <==> k in target) && (k in r ==> r[k] == target[k]))
            && (Hoistable(k, locked) && k in keys ==> k in r && r[k] == source[k])
  {
    if keys != [] {
      var prefix := keys[..|keys| - 1];
      assert forall i :: 0 <= i < |prefix| ==> prefix[i] == keys[i];
      HoistedFacts(target, source, prefix, locked, k);
      assert keys == prefix + [keys[|keys| - 1]];
    }
  }

  /** `wrappedName`: the first non-empty of the component's `displayName` and
      `name`, else "Component". */
  function WrappedName(displayName: Option<string>, name: Option<string>): (r: string)
    ensures r != ""
    ensures displayName.Some? && displayName.value != "" ==> r == displayName.value
    ensures !(displayName.Some? && displayName.value != "") && name.Some? && name.value != "" ==> r == name.value
    ensures !(displayName.Some? && displayName.value != "") && !(name.Some? && name.value != "") ==> r == "Component"
  {
    if displayName.Some? && displayName.value != "" then displayName.value
    else if name.Some? && name.value != "" then name.value
    else "Component"
  }

  /** The wrapper's `displayName`. */
  function WrapperDisplayName(displayName: Option<string>, name: Option<string>): (r: string)
    ensures |r| > |"withErrorBoundary()"|
    ensures r[..18] == "withErrorBoundary(" && r[|r| - 1] == ')'
    ensures r[18..|r| - 1] == WrappedName(displayName, name)
  {
    "withErrorBoundary(" + WrappedName(displayName, name) + ")"
  }

  /** `withErrorBoundary(Wrapped, options)`: the wrapper's own properties
      after naming it and hoisting the wrapped component's statics onto it.
      `wrapper` holds the wrapper function's own properties before. */
  method WithErrorBoundary(wrapper: map<string, JsValue>, displayName: Option<string>, name: Option<string>,
                           statics: map<string, JsValue>, keys: seq<string>, locked: set<string>)
      returns (r: map<string, JsValue>)
    requires forall i :: 0 <= i < |keys| ==> keys[i] in statics
    ensures r == Hoisted(wrapper["displayName" := JStr(WrapperDisplayName(displayName, name))], statics, keys, locked)
  {
    var named := wrapper["displayName" := JStr(WrapperDisplayName(displayName, name))];
    r := HoistNonReactStatics(named, statics, keys, locked);
  }

  /** The wrapper keeps its own descriptive name whatever the wrapped
      component's statics say, and carries its custom statics. */
  lemma WrapperKeepsName(wrapper: map<string, JsValue>, displayName: Option<string>, name: Option<string>,
                         statics: map<string, JsValue>, keys: seq<string>, locked: set<string>, custom: string)
    requires forall i :: 0 <= i < |keys| ==> keys[i] in statics
    requires custom in keys && Hoistable(custom, locked)
    ensures var r := Hoisted(wrapper["displayName" := JStr(WrapperDisplayName(displayName, name))], statics, keys, locked);
            "displayName" in r && r["displayName"] == JStr(WrapperDisplayName(displayName, name))
            && custom in r && r[custom] == statics[custom]
  {
    var named := wrapper["displayName" := JStr(WrapperDisplayName(displayName, name))];
    HoistedFacts(named, statics, keys, locked, "displayName");
    HoistedFacts(named, statics, keys, locked, custom);
  }

  /** A component named "Base" gets a wrapper named "withErrorBoundary(Base)". */
  lemma BaseExample()
    ensures WrapperDisplayName(Some("Base"), Some("")) == "withErrorBoundary(Base)"
  {
  }
}
