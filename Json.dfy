/**
 * `JSON.stringify` and `JSON.parse` on the JSON data model (null, booleans, finite
 * numbers, strings, arrays, objects). The text is a self-delimiting encoding of
 * that data model rather than JSON's own concrete syntax; what the phrase-list
 * code relies on is kept: stringify turns non-finite numbers into `null`, drops
 * `undefined` object members and writes `undefined` array elements as `null`;
 * parse accepts exactly the texts stringify can produce and anything else throws;
 * and parsing a stringified JSON value gives that value back.
 */
module Json {
  import opened Wrappers
  import opened JsValues

  /** A value that JSON can carry unchanged. */
  predicate IsJsonValue(v: JsValue) {
    match v
    case JUndefined => false
    case JNull => true
    case JBool(_) => true
    case JNum(n) => n.Finite?
    case JStr(_) => true
    case JArray(es) => AllJson(es)
    case JObject(fs) => AllJsonFields(fs)
  }

  predicate AllJson(es: seq<JsValue>) {
    es == [] || (IsJsonValue(es[0]) && AllJson(es[1..]))
  }

  predicate AllJsonFields(fs: seq<Member>) {
    fs == [] || (IsJsonValue(fs[0].value) && AllJsonFields(fs[1..]))
  }

  function EncodeNat(n: nat): string {
    NatToString(n) + ";"
  }

  function EncodeString(s: string): string {
    "s" + EncodeNat(|s|) + s
  }

  /** `JSON.stringify(v)`; `undefined` at top level is written as `null`. */
  function Stringify(v: JsValue): (r: string)
    ensures r != [] && r[0] in "ntfpms[{"
  {
    match v
    case JUndefined => "n"
    case JNull => "n"
    case JBool(b) => if b then "t" else "f"
    case JNum(n) =>
      (match n
       case Finite(i) => if i >= 0 then "p" + EncodeNat(i) else "m" + EncodeNat(-i)
       case _ => "n")
    case JStr(s) => EncodeString(s)
    case JArray(es) => "[" + StringifyElems(es) + "]"
    case JObject(fs) => "{" + StringifyFields(fs) + "}"
  }

  function StringifyElems(es: seq<JsValue>): string {
    if es == [] then "" else Stringify(es[0]) + StringifyElems(es[1..])
  }

  /** Members whose value is `undefined` are left out, as JSON does. */
  function StringifyFields(fs: seq<Member>): string {
    if fs == [] then ""
    else if fs[0].value.JUndefined? then StringifyFields(fs[1..])
    else EncodeString(fs[0].key) + Stringify(fs[0].value) + StringifyFields(fs[1..])
  }

  // ---------------------------------------------------------------------------
  // Parsing

  /** Splits `s` at its first `;`. */
  function SplitAtSemi(s: string): (r: Option<(string, string)>)
    ensures r.Some? ==> |r.value.1| < |s|
  {
    if s == [] then None
    else if s[0] == ';' then Some(([], s[1..]))
    else match SplitAtSemi(s[1..])
      case None => None
      case Some((d, rest)) => Some(([s[0]] + d, rest))
  }

  function ParseNat(s: string): (r: Option<(nat, string)>)
    ensures r.Some? ==> |r.value.1| < |s|
  {
    match SplitAtSemi(s)
    case None => None
    case Some((d, rest)) => if d != [] && AllDigits(d) then Some((DigitsValue(d), rest)) else None
  }

  function ParseString(s: string): (r: Option<(string, string)>)
    ensures r.Some? ==> |r.value.1| < |s|
  {
    if s == [] || s[0] != 's' then None
    else match ParseNat(s[1..])
      case None => None
      case Some((len, rest)) => if len <= |rest| then Some((rest[..len], rest[len..])) else None
  }

  /** Reads one value from the front of `s`, returning it with the remaining text. */
  function ParseValue(s: string): (r: Option<(JsValue, string)>)
    ensures r.Some? ==> |r.value.1| < |s|
    decreases |s|, 0
  {
    if s == [] then None
    else if s[0] == 'n' then Some((JNull, s[1..]))
    else if s[0] == 't' then Some((JBool(true), s[1..]))
    else if s[0] == 'f' then Some((JBool(false), s[1..]))
    else if s[0] == 'p' then
      match ParseNat(s[1..])
      case None => None
      case Some((k, rest)) => Some((JNum(Finite(k)), rest))
    else if s[0] == 'm' then
      match ParseNat(s[1..])
      case None => None
      case Some((k, rest)) => if k == 0 then None else Some((JNum(Finite(-(k as int))), rest))
    else if s[0] == 's' then
      match ParseString(s)
      case None => None
      case Some((str, rest)) => Some((JStr(str), rest))
    else if s[0] == '[' then
      match ParseElems(s[1..])
      case None => None
      case Some((es, rest)) => Some((JArray(es), rest))
    else if s[0] == '{' then
      match ParseFields(s[1..])
      case None => None
      case Some((fs, rest)) => Some((JObject(fs), rest))
    else None
  }

  /** Reads values up to and including the closing `]`. */
  function ParseElems(s: string): (r: Option<(seq<JsValue>, string)>)
    ensures r.Some? ==> |r.value.1| < |s|
    decreases |s|, 1
  {
    if s == [] then None
    else if s[0] == ']' then Some(([], s[1..]))
    else match ParseValue(s)
      case None => None
      case Some((v, rest)) =>
        match ParseElems(rest)
        case None => None
        case Some((es, rest2)) => Some(([v] + es, rest2))
  }

  /** Reads key/value members up to and including the closing `}`. */
  function ParseFields(s: string): (r: Option<(seq<Member>, string)>)
    ensures r.Some? ==> |r.value.1| < |s|
    decreases |s|, 1
  {
    if s == [] then None
    else if s[0] == '}' then Some(([], s[1..]))
    else match ParseString(s)
      case None => None
      case Some((k, rest)) =>
        match ParseValue(rest)
        case None => None
        case Some((v, rest2)) =>
          match ParseFields(rest2)
          case None => None
          case Some((fs, rest3)) => Some(([Member(k, v)] + fs, rest3))
  }

  /** `JSON.parse(s)`: `None` stands for the `SyntaxError` it throws. What it
      returns is a JSON value: never `undefined` or a non-finite number. */
  function Parse(s: string): (r: Option<JsValue>)
    ensures r.Some? ==> IsJsonValue(r.value)
  {
    ParsedIsJson(s);
    match ParseValue(s)
    case Some((v, rest)) => if rest == [] then Some(v) else None
    case None => None
  }

  // ---------------------------------------------------------------------------
  // Round trip

  lemma {:induction false} SplitAtSemiDigits(d: string, rest: string)
    requires AllDigits(d)
    ensures SplitAtSemi(d + ";" + rest) == Some((d, rest))
  {
    if d != [] {
      assert (d + ";" + rest)[1..] == d[1..] + ";" + rest;
      SplitAtSemiDigits(d[1..], rest);
      assert [d[0]] + d[1..] == d;
    } else {
      assert (d + ";" + rest)[1..] == rest;
    }
  }

  lemma ParseNatEncode(n: nat, rest: string)
    ensures ParseNat(EncodeNat(n) + rest) == Some((n, rest))
  {
    assert EncodeNat(n) + rest == NatToString(n) + ";" + rest;
    SplitAtSemiDigits(NatToString(n), rest);
    NatToStringValue(n);
  }

  lemma ParseStringEncode(str: string, rest: string)
    ensures ParseString(EncodeString(str) + rest) == Some((str, rest))
  {
    var s := EncodeString(str) + rest;
    assert s[1..] == EncodeNat(|str|) + (str + rest);
    ParseNatEncode(|str|, str + rest);
    assert (str + rest)[..|str|] == str;
    assert (str + rest)[|str|..] == rest;
  }

  lemma ParseValueTagged(c: char, t: string)
    ensures c == 'p' ==> ParseValue([c] + t) == (match ParseNat(t)
                           case None => None
                           case Some((k, rest)) => Some((JNum(Finite(k)), rest)))
    ensures c == '[' ==> ParseValue([c] + t) == (match ParseElems(t)
                           case None => None
                           case Some((es, rest)) => Some((JArray(es), rest)))
    ensures c == '{' ==> ParseValue([c] + t) == (match ParseFields(t)
                           case None => None
                           case Some((fs, rest)) => Some((JObject(fs), rest)))
  {
    assert ([c] + t)[0] == c && ([c] + t)[1..] == t;
  }

  lemma ParseNegative(k: nat, rest: string)
    requires k > 0
    ensures ParseValue("m" + EncodeNat(k) + rest) == Some((JNum(Finite(-(k as int))), rest))
  {
    var s := "m" + EncodeNat(k) + rest;
    assert s[0] == 'm' && s[1..] == EncodeNat(k) + rest;
    ParseNatEncode(k, rest);
  }

  lemma ParseStringifyNumber(i: int, rest: string)
    ensures ParseValue(Stringify(JNum(Finite(i))) + rest) == Some((JNum(Finite(i)), rest))
  {
    if i >= 0 {
      assert Stringify(JNum(Finite(i))) + rest == ['p'] + (EncodeNat(i) + rest);
      ParseValueTagged('p', EncodeNat(i) + rest);
      ParseNatEncode(i, rest);
    } else {
      ParseNegative(-i, rest);
    }
  }

  lemma ParseStringifyString(str: string, rest: string)
    ensures ParseValue(Stringify(JStr(str)) + rest) == Some((JStr(str), rest))
  {
    ParseStringEncode(str, rest);
    assert (Stringify(JStr(str)) + rest)[0] == 's';
  }

  lemma ParseStringifyScalar(v: JsValue, rest: string)
    requires v.JNull? || v.JBool?
    ensures ParseValue(Stringify(v) + rest) == Some((v, rest))
  {
  }

  /** Parsing what stringify wrote reads back the value and leaves the rest. */
  lemma {:induction false} ParseStringify(v: JsValue, rest: string)
    requires IsJsonValue(v)
    ensures ParseValue(Stringify(v) + rest) == Some((v, rest))
    decreases v, 1
  {
    match v
    case JNull => ParseStringifyScalar(v, rest);
    case JBool(_) => ParseStringifyScalar(v, rest);
    case JNum(n) => ParseStringifyNumber(n.value, rest);
    case JStr(str) => ParseStringifyString(str, rest);
    case JArray(es) =>
      var t := StringifyElems(es) + "]" + rest;
      assert Stringify(v) + rest == ['['] + t;
      ParseValueTagged('[', t);
      ParseStringifyElems(es, rest);
    case JObject(fs) =>
      var t := StringifyFields(fs) + "}" + rest;
      assert Stringify(v) + rest == ['{'] + t;
      ParseValueTagged('{', t);
      ParseStringifyFields(fs, rest);
  }

  lemma {:induction false} ParseStringifyElems(es: seq<JsValue>, rest: string)
    requires AllJson(es)
    ensures ParseElems(StringifyElems(es) + "]" + rest) == Some((es, rest))
    decreases es, 0
  {
    if es == [] {
      assert StringifyElems(es) + "]" + rest == "]" + rest;
    } else {
      var tail := StringifyElems(es[1..]) + "]" + rest;
      assert StringifyElems(es) + "]" + rest == Stringify(es[0]) + tail;
      ParseStringify(es[0], tail);
      ParseStringifyElems(es[1..], rest);
      assert [es[0]] + es[1..] == es;
    }
  }

  /** One unfolding of `ParseFields` on a text that starts with a key. */
  lemma ParseFieldsStep(s: string, k: string, afterKey: string, v: JsValue, tail: string,
                        fs: seq<Member>, rest: string)
    requires ParseString(s) == Some((k, afterKey))
    requires ParseValue(afterKey) == Some((v, tail))
    requires ParseFields(tail) == Some((fs, rest))
    ensures ParseFields(s) == Some(([Member(k, v)] + fs, rest))
  {
    assert s != [] && s[0] == 's';
  }

  /** The text of a member followed by more members. */
  lemma StringifyFieldsCons(m: Member, more: seq<Member>, rest: string)
    requires !m.value.JUndefined?
    ensures StringifyFields([m] + more) + "}" + rest
            == EncodeString(m.key) + (Stringify(m.value) + (StringifyFields(more) + "}" + rest))
  {
    assert ([m] + more)[0] == m && ([m] + more)[1..] == more;
    var a, b, c := EncodeString(m.key), Stringify(m.value), StringifyFields(more);
    assert StringifyFields([m] + more) == a + b + c;
    assert a + b + c + "}" + rest == a + (b + (c + "}" + rest));
  }

  /** One member read by `ParseFields`, given that its value and the
      following members read back. */
  lemma ParseFieldsCons(m: Member, more: seq<Member>, rest: string)
    requires IsJsonValue(m.value)
    requires ParseValue(Stringify(m.value) + (StringifyFields(more) + "}" + rest))
             == Some((m.value, StringifyFields(more) + "}" + rest))
    requires ParseFields(StringifyFields(more) + "}" + rest) == Some((more, rest))
    ensures ParseFields(StringifyFields([m] + more) + "}" + rest) == Some(([m] + more, rest))
  {
    var tail := StringifyFields(more) + "}" + rest;
    var afterKey := Stringify(m.value) + tail;
    StringifyFieldsCons(m, more, rest);
    ParseStringEncode(m.key, afterKey);
    ParseFieldsStep(EncodeString(m.key) + afterKey, m.key, afterKey, m.value, tail, more, rest);
  }

  lemma {:induction false} ParseStringifyFields(fs: seq<Member>, rest: string)
    requires AllJsonFields(fs)
    ensures ParseFields(StringifyFields(fs) + "}" + rest) == Some((fs, rest))
    decreases fs, 0
  {
    if fs == [] {
      assert StringifyFields(fs) + "}" + rest == "}" + rest;
    } else {
      ParseStringify(fs[0].value, StringifyFields(fs[1..]) + "}" + rest);
      ParseStringifyFields(fs[1..], rest);
      ParseFieldsCons(fs[0], fs[1..], rest);
      assert [fs[0]] + fs[1..] == fs;
    }
  }

  /** `JSON.parse(JSON.stringify(v))` gives `v` back for every JSON value. */
  lemma ParseOfStringify(v: JsValue)
    requires IsJsonValue(v)
    ensures Parse(Stringify(v)) == Some(v)
  {
    ParseStringify(v, "");
    assert Stringify(v) + "" == Stringify(v);
  }

  /** Different JSON values never stringify to the same text. */
  lemma StringifyInjective(a: JsValue, b: JsValue)
    requires IsJsonValue(a) && IsJsonValue(b)
    ensures Stringify(a) == Stringify(b) <==> a == b
  {
    if Stringify(a) == Stringify(b) {
      ParseOfStringify(a);
      ParseOfStringify(b);
    }
  }

  /** Whatever parse returns is a JSON value: a parsed text never holds
      `undefined` or a non-finite number. */
  lemma {:induction false} ParsedIsJson(s: string)
    ensures ParseValue(s).Some? ==> IsJsonValue(ParseValue(s).value.0)
    decreases |s|, 0
  {
    if s != [] && s[0] == '[' {
      ParsedElemsAreJson(s[1..]);
    } else if s != [] && s[0] == '{' {
      ParsedFieldsAreJson(s[1..]);
    }
  }

  lemma {:induction false} ParsedElemsAreJson(s: string)
    ensures ParseElems(s).Some? ==> AllJson(ParseElems(s).value.0)
    decreases |s|, 1
  {
    if s != [] && s[0] != ']' {
      ParsedIsJson(s);
      match ParseValue(s)
      case None =>
      case Some((v, rest)) =>
        ParsedElemsAreJson(rest);
        match ParseElems(rest)
        case None =>
        case Some((es, rest2)) =>
          assert ([v] + es)[1..] == es;
    }
  }

  lemma {:induction false} ParsedFieldsAreJson(s: string)
    ensures ParseFields(s).Some? ==> AllJsonFields(ParseFields(s).value.0)
    decreases |s|, 1
  {
    if s != [] && s[0] != '}' {
      match ParseString(s)
      case None =>
      case Some((k, rest)) =>
        ParsedIsJson(rest);
        match ParseValue(rest)
        case None =>
        case Some((v, rest2)) =>
          ParsedFieldsAreJson(rest2);
          match ParseFields(rest2)
          case None =>
          case Some((fs, rest3)) =>
            assert ([Member(k, v)] + fs)[1..] == fs;
    }
  }

  /** The text of an empty list. */
  lemma StringifyEmptyArray()
    ensures Stringify(JArray([])) == "[]"
  {
  }
}
