/**
 * Persistence of the phrase list in a key/value storage: loading keeps only
 * the stored entries that validate as phrases, saving writes the serialised
 * list under one key, and the store subscription writes only when the
 * serialised list differs from the last one it wrote.
 */
module Persistence {
  import opened Wrappers
  import opened JsValues
  import opened Json
  import opened Phrases

  const StorageKey := "phrases.items"

  /** A `Storage`: string entries by key. `writes` counts the `setItem` calls. */
  class Storage {
    var entries: map<string, string>
    var writes: nat

    constructor (entries: map<string, string>)
      ensures this.entries == entries && writes == 0
    {
      this.entries := entries;
      writes := 0;
    }

    /** `getItem`: `None` is `null`. */
    function GetItem(key: string): Option<string>
      reads this
    {
      if key in entries then Some(entries[key]) else None
    }

    method SetItem(key: string, value: string)
      modifies this
      ensures entries == old(entries)[key := value] && writes == old(writes) + 1
    {
      entries := entries[key := value];
      writes := writes + 1;
    }
  }

  /** The plain array a phrase list is serialised from. */
  function PhrasesJs(ps: seq<Phrase>): (r: JsValue)
    ensures r.JArray? && |r.elems| == |ps|
  {
    JArray(seq(|ps|, i requires 0 <= i < |ps| => PhraseToJs(ps[i])))
  }

  /** `safeStringify(items)`: `JSON.stringify(items ?? [])`, which cannot throw
      on a phrase list. */
  function SafeStringify(items: Option<seq<Phrase>>): (r: string)
    ensures r != ""
  {
    Stringify(PhrasesJs(items.GetOr([])))
  }

  /** The phrases `loadPhrasesFromStorage` reads from the storage entries. */
  function LoadedPhrases(entries: map<string, string>): seq<Phrase> {
    if StorageKey !in entries || entries[StorageKey] == "" then []
    else match Parse(entries[StorageKey])
      case None => []
      case Some(parsed) => if parsed.JArray? then Collect(EnsurePhrase, parsed.elems) else []
  }

  /** `loadPhrasesFromStorage(storage)`; `local` is `window.localStorage`. */
  method LoadPhrasesFromStorage(windowDefined: bool, storage: Storage?, local: Storage) returns (r: seq<Phrase>)
    ensures !windowDefined ==> r == []
    ensures windowDefined ==> r == LoadedPhrases((if storage != null then storage else local).entries)
  {
    if !windowDefined {
      return [];
    }
    var store := if storage != null then storage else local;
    var raw := store.GetItem(StorageKey);
    if raw.None? || raw.value == "" {
      return [];
    }
    var parsed := Parse(raw.value);
    if parsed.None? || !parsed.value.JArray? {
      return [];
    }
    r := CollectValid(EnsurePhrase, parsed.value.elems);
  }

  /** `savePhrasesToStorage(items, storage)`: one write, under the one key. */
  method SavePhrasesToStorage(items: Option<seq<Phrase>>, windowDefined: bool, storage: Storage?, local: Storage)
    modifies if storage != null then storage else local
    ensures var store := if storage != null then storage else local;
            if windowDefined then store.entries == old(store.entries)[StorageKey := SafeStringify(items)]
                                  && store.writes == old(store.writes) + 1
            else store.entries == old(store.entries) && store.writes == old(store.writes)
  {
    if !windowDefined {
      return;
    }
    var store := if storage != null then storage else local;
    store.SetItem(StorageKey, Stringify(PhrasesJs(items.GetOr([]))));
  }

  /** `attachPhrasesPersistence`: the subscription and its `lastSerialized`. */
  class Subscription {
    const windowDefined: bool
    const store: Storage
    var lastSerialized: string
    var subscribed: bool

    constructor (windowDefined: bool, storage: Storage?, local: Storage)
      ensures this.windowDefined == windowDefined
      ensures store == (if storage != null then storage else local)
      ensures lastSerialized == "" && subscribed
    {
      this.windowDefined := windowDefined;
      store := if storage != null then storage else local;
      lastSerialized := "";
      subscribed := true;
    }

    /** The listener, run with the store's current items. */
    method Notify(items: seq<Phrase>)
      modifies this, store
      ensures var next := SafeStringify(Some(items));
              if !old(subscribed) || next == old(lastSerialized) then
                lastSerialized == old(lastSerialized) && store.entries == old(store.entries)
                && store.writes == old(store.writes)
              else
                lastSerialized == next
                && (windowDefined ==> store.entries == old(store.entries)[StorageKey := next]
                                      && store.writes == old(store.writes) + 1)
                && (!windowDefined ==> store.entries == old(store.entries) && store.writes == old(store.writes))
      ensures subscribed == old(subscribed)
    {
      if !subscribed {
        return;
      }
      var next := SafeStringify(Some(items));
      if next == lastSerialized {
        return;
      }
      lastSerialized := next;
      SavePhrasesToStorage(Some(items), windowDefined, store, store);
    }

    /** The function `attachPhrasesPersistence` returns. */
    method Unsubscribe()
      modifies this
      ensures !subscribed && lastSerialized == old(lastSerialized)
    {
      subscribed := false;
    }
  }

  // ---------------------------------------------------------------------------
  // Properties

  /** An absent or empty entry, text that does not parse, and a parsed value
      that is not an array all load as the empty list. */
  lemma LoadRejects(entries: map<string, string>)
    requires StorageKey !in entries || entries[StorageKey] == ""
             || Parse(entries[StorageKey]).None? || !Parse(entries[StorageKey]).value.JArray?
    ensures LoadedPhrases(entries) == []
  {
  }

  /** Loading keeps exactly the stored entries `ensurePhrase` accepts,
      normalised, and no more entries than were stored. */
  lemma LoadKeepsValid(entries: map<string, string>, elems: seq<JsValue>, p: Phrase)
    requires StorageKey in entries && Parse(entries[StorageKey]) == Some(JArray(elems))
    ensures p in LoadedPhrases(entries) <==> exists i :: 0 <= i < |elems| && EnsurePhrase(elems[i]) == Ok(p)
    ensures p in LoadedPhrases(entries) ==> Normalized(p)
    ensures |LoadedPhrases(entries)| <= |elems|
  {
    CollectMember(EnsurePhrase, elems, p);
  }

  lemma PhraseToJsIsJson(p: Phrase)
    ensures IsJsonValue(PhraseToJs(p))
  {
    var m0, m1, m2 := Member("id", JStr(p.id)), Member("text", JStr(p.text)),
                      Member("createdAt", JNum(Finite(p.createdAt)));
    assert PhraseToJs(p).fields == [m0, m1, m2];
    assert [m2][1..] == [];
    assert AllJsonFields([]);
    assert IsJsonValue([m2][0].value);
    assert AllJsonFields([m2]);
    assert [m1, m2][1..] == [m2];
    assert AllJsonFields([m1, m2]);
    assert [m0, m1, m2][1..] == [m1, m2];
  }

  lemma {:induction false} PhrasesJsIsJson(es: seq<JsValue>, ps: seq<Phrase>)
    requires |es| == |ps| && forall i :: 0 <= i < |es| ==> es[i] == PhraseToJs(ps[i])
    ensures AllJson(es)
  {
    if es != [] {
      PhraseToJsIsJson(ps[0]);
      PhrasesJsIsJson(es[1..], ps[1..]);
    }
  }

  lemma CollectPhrasesJs(ps: seq<Phrase>)
    requires forall i :: 0 <= i < |ps| ==> Normalized(ps[i])
    ensures Collect(EnsurePhrase, PhrasesJs(ps).elems) == ps
  {
    var es := PhrasesJs(ps).elems;
    forall i | 0 <= i < |es| ensures EnsurePhrase(es[i]).Ok? && EnsurePhrase(es[i]).value == ps[i] {
      EnsurePhraseOfPhrase(ps[i]);
    }
    CollectAllOk(EnsurePhrase, es);
  }

  /** Saving normalised phrases and loading them back gives the same list,
      in the same order. */
  lemma SaveLoadRoundTrip(entries: map<string, string>, ps: seq<Phrase>)
    requires forall i :: 0 <= i < |ps| ==> Normalized(ps[i])
    ensures LoadedPhrases(entries[StorageKey := SafeStringify(Some(ps))]) == ps
  {
    var v := PhrasesJs(ps);
    var text := SafeStringify(Some(ps));
    var after := entries[StorageKey := text];
    assert after[StorageKey] == text && text == Stringify(v);
    PhrasesJsIsJson(v.elems, ps);
    ParseOfStringify(v);
    CollectPhrasesJs(ps);
  }

  /** An absent list is saved as "[]", exactly like an empty one, and
      different phrase lists are saved as different texts. */
  lemma SafeStringifyFacts(a: seq<Phrase>, b: seq<Phrase>)
    ensures SafeStringify(None) == SafeStringify(Some([])) == "[]"
    ensures SafeStringify(Some(a)) == SafeStringify(Some(b)) <==> a == b
  {
    StringifyEmptyArray();
    assert PhrasesJs([]) == JArray([]);
    var va, vb := PhrasesJs(a), PhrasesJs(b);
    PhrasesJsIsJson(va.elems, a);
    PhrasesJsIsJson(vb.elems, b);
    StringifyInjective(va, vb);
    if va == vb {
      forall i | 0 <= i < |a| ensures a[i] == b[i] {
        assert PhraseToJs(a[i]) == PhraseToJs(b[i]);
        PhraseToJsInjective(a[i], b[i]);
      }
    }
  }

  lemma PhraseToJsInjective(p: Phrase, q: Phrase)
    requires PhraseToJs(p) == PhraseToJs(q)
    ensures p == q
  {
    var fp, fq := PhraseToJs(p).fields, PhraseToJs(q).fields;
    assert fp[0].value == fq[0].value && fp[1].value == fq[1].value && fp[2].value == fq[2].value;
  }

  /** The first notification always writes: a serialised list is never the
      empty string `lastSerialized` starts with. A second notification with
      the same items writes nothing. */
  method FirstWriteThenSkip(windowDefined: bool, storage: Storage?, local: Storage, items: seq<Phrase>)
      returns (sub: Subscription)
    modifies if storage != null then storage else local
    ensures var store := if storage != null then storage else local;
            sub.store == store
            && (windowDefined ==> store.writes == old(store.writes) + 1
                                  && store.entries == old(store.entries)[StorageKey := SafeStringify(Some(items))])
  {
    sub := new Subscription(windowDefined, storage, local);
    sub.Notify(items);
    var after := sub.store.writes;
    sub.Notify(items);
    assert sub.store.writes == after;
  }
}
