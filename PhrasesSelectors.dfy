/**
 * The selectors of the phrases slice and the text helpers they use: query
 * sanitising (collapse whitespace runs, trim), diacritic stripping, RegExp
 * escaping, and the case-insensitive literal match the escaped pattern
 * performs.
 */
module PhrasesSelectors {
  import opened Wrappers
  import opened JsValues
  import opened Phrases
  import opened PhrasesSlice

  const MinQueryLength := 2

  // ---------------------------------------------------------------------------
  // sanitizeQuery

  /** `replace(/\s+/g, " ")`; `inRun` says the previous character was part of
      a whitespace run already replaced. */
  function CollapseFrom(s: string, inRun: bool): string {
    if s == [] then []
    else if IsWhitespace(s[0]) then (if inRun then [] else [' ']) + CollapseFrom(s[1..], true)
    else [s[0]] + CollapseFrom(s[1..], false)
  }

  function CollapseWhitespace(s: string): string {
    CollapseFrom(s, false)
  }

  /** Every whitespace character is a single space followed by a non-blank. */
  predicate SingleSpaced(s: string) {
    forall i :: 0 <= i < |s| && IsWhitespace(s[i]) ==> s[i] == ' ' && (i + 1 < |s| ==> !IsWhitespace(s[i + 1]))
  }

  /** The length of the run of non-whitespace characters `s` starts with. */
  function WordLen(s: string): (n: nat)
    ensures n <= |s| && (n == |s| || IsWhitespace(s[n]))
    ensures forall i :: 0 <= i < n ==> !IsWhitespace(s[i])
  {
    if s == [] || IsWhitespace(s[0]) then 0 else 1 + WordLen(s[1..])
  }

  /** A word: non-empty, with no whitespace in it. */
  predicate IsWord(w: string) {
    w != [] && forall i :: 0 <= i < |w| ==> !IsWhitespace(w[i])
  }

  /** The words of `s`: its maximal runs of non-whitespace characters, in
      order. */
  function Words(s: string): (ws: seq<string>)
    ensures forall k :: 0 <= k < |ws| ==> IsWord(ws[k])
    decreases |s|
  {
    if s == [] then []
    else if IsWhitespace(s[0]) then Words(s[1..])
    else [s[..WordLen(s)]] + Words(s[WordLen(s)..])
  }

  /** Words joined by single spaces. */
  function JoinWords(ws: seq<string>): string {
    if ws == [] then []
    else if |ws| == 1 then ws[0]
    else ws[0] + " " + JoinWords(ws[1..])
  }

  /** `sanitizeQuery`: the words of the raw query, joined by single spaces;
      so the result has no white space at its ends and only single spaces
      inside. */
  function SanitizeQuery(raw: string): (r: string)
    ensures r == JoinWords(Words(raw))
    ensures Trimmed(r) && SingleSpaced(r)
  {
    TrimCollapseWords(raw);
    var c := CollapseWhitespace(raw);
    CollapseSingleSpaced(raw, false);
    TrimEnds(c);
    TrimStartFacts(c);
    var t := TrimStart(c);
    TrimEndFacts(t);
    var k := |c| - |t|;
    assert Trim(c) == c[k..k + |TrimEnd(t)|];
    SingleSpacedSlice(c, k, k + |TrimEnd(t)|);
    Trim(c)
  }

  lemma {:induction false} CollapseSingleSpaced(s: string, inRun: bool)
    ensures SingleSpaced(CollapseFrom(s, inRun))
    ensures inRun ==> CollapseFrom(s, inRun) == [] || !IsWhitespace(CollapseFrom(s, inRun)[0])
  {
    if s != [] {
      var tail := CollapseFrom(s[1..], IsWhitespace(s[0]));
      CollapseSingleSpaced(s[1..], IsWhitespace(s[0]));
      var r := CollapseFrom(s, inRun);
      if IsWhitespace(s[0]) && inRun {
        assert r == tail;
      } else {
        var h := if IsWhitespace(s[0]) then ' ' else s[0];
        assert r == [h] + tail;
        forall i | 0 <= i < |r| && IsWhitespace(r[i])
          ensures r[i] == ' ' && (i + 1 < |r| ==> !IsWhitespace(r[i + 1]))
        {
          if i > 0 {
            assert r[i] == tail[i - 1];
            if i + 1 < |r| {
              assert r[i + 1] == tail[i];
            }
          } else if 1 < |r| {
            assert r[1] == tail[0];
          }
        }
      }
    }
  }

  lemma {:induction false} CollapseFixed(s: string, inRun: bool)
    requires SingleSpaced(s)
    requires inRun ==> s == [] || !IsWhitespace(s[0])
    ensures CollapseFrom(s, inRun) == s
  {
    if s != [] {
      assert SingleSpaced(s[1..]) by {
        forall i | 0 <= i < |s[1..]| && IsWhitespace(s[1..][i])
          ensures s[1..][i] == ' ' && (i + 1 < |s[1..]| ==> !IsWhitespace(s[1..][i + 1]))
        {
          assert s[1..][i] == s[i + 1];
          if i + 1 < |s[1..]| {
            assert s[1..][i + 1] == s[i + 2];
          }
        }
      }
      if |s| > 1 {
        assert s[1..][0] == s[1];
      }
      CollapseFixed(s[1..], IsWhitespace(s[0]));
      assert s == [s[0]] + s[1..];
    }
  }

  lemma SingleSpacedSlice(s: string, a: int, b: int)
    requires SingleSpaced(s) && 0 <= a <= b <= |s|
    ensures SingleSpaced(s[a..b])
  {
    var t := s[a..b];
    forall i | 0 <= i < |t| && IsWhitespace(t[i])
      ensures t[i] == ' ' && (i + 1 < |t| ==> !IsWhitespace(t[i + 1]))
    {
      assert t[i] == s[a + i];
      if i + 1 < |t| {
        assert t[i + 1] == s[a + i + 1];
      }
    }
  }

  /** Collapsing a word followed by anything keeps the word and collapses the
      rest as if no whitespace run were open. */
  lemma {:induction false} CollapseWord(w: string, rest: string, inRun: bool)
    requires IsWord(w)
    ensures CollapseFrom(w + rest, inRun) == w + CollapseFrom(rest, false)
  {
    assert (w + rest)[0] == w[0] && (w + rest)[1..] == w[1..] + rest;
    if |w| == 1 {
      assert w[1..] + rest == rest;
    } else {
      assert w[1..][0] == w[1];
      CollapseWord(w[1..], rest, false);
      assert w == [w[0]] + w[1..];
    }
  }

  /** Text without words is all whitespace. */
  lemma {:induction false} NoWordsAllWhitespace(s: string)
    requires Words(s) == []
    ensures forall i :: 0 <= i < |s| ==> IsWhitespace(s[i])
    decreases |s|
  {
    if s != [] {
      NoWordsAllWhitespace(s[1..]);
      forall i | 0 <= i < |s| ensures IsWhitespace(s[i]) {
        if i > 0 {
          assert s[i] == s[1..][i - 1];
        }
      }
    }
  }

  /** What collapsing makes of text past its leading whitespace: the words
      joined by single spaces, and one space behind them when the text ends
      with whitespace after a word. */
  function Collapsed(s: string): string {
    JoinWords(Words(s)) + (if s != [] && IsWhitespace(s[|s| - 1]) && Words(s) != [] then " " else "")
  }

  /** Collapsing yields `Collapsed`, with one space in front when the text
      starts with whitespace outside an open run. */
  lemma {:induction false} CollapseWords(s: string, inRun: bool)
    ensures CollapseFrom(s, inRun)
            == if s != [] && IsWhitespace(s[0]) && !inRun then " " + Collapsed(s) else Collapsed(s)
    decreases |s|
  {
    if s == [] {
    } else if IsWhitespace(s[0]) {
      var t := s[1..];
      CollapseWords(t, true);
      CollapsedSpace(s);
      assert CollapseFrom(s, inRun) == (if inRun then [] else [' ']) + CollapseFrom(t, true);
      assert [] + Collapsed(t) == Collapsed(t);
    } else {
      var n := WordLen(s);
      var w, rest := s[..n], s[n..];
      assert IsWord(w);
      assert s == w + rest;
      CollapseWord(w, rest, inRun);
      CollapseWords(rest, false);
      CollapsedWord(s, w, rest);
      if rest == [] {
        assert w + [] == w;
      }
    }
  }

  /** Leading whitespace does not change `Collapsed`. */
  lemma CollapsedSpace(s: string)
    requires s != [] && IsWhitespace(s[0])
    ensures Collapsed(s) == Collapsed(s[1..])
  {
    assert Words(s) == Words(s[1..]);
    if s[1..] != [] {
      assert s[1..][|s[1..]| - 1] == s[|s| - 1];
    }
  }

  /** A leading word comes first in `Collapsed`, followed by a space when
      whitespace comes after it. */
  lemma CollapsedWord(s: string, w: string, rest: string)
    requires IsWord(w) && s == w + rest && (rest == [] || IsWhitespace(rest[0]))
    requires Words(s) == [w] + Words(rest)
    ensures Collapsed(s) == if rest == [] then w else w + (" " + Collapsed(rest))
  {
    var ws := Words(rest);
    if rest == [] {
      assert s == w && JoinWords([w]) == w;
    } else {
      assert s[|s| - 1] == rest[|rest| - 1];
      if ws == [] {
        NoWordsAllWhitespace(rest);
        CollapsedBlank(s, w, rest);
      } else {
        CollapsedWords(w, ws);
      }
    }
  }

  lemma CollapsedBlank(s: string, w: string, rest: string)
    requires IsWord(w) && rest != [] && Words(s) == [w] && Words(rest) == []
    requires IsWhitespace(s[|s| - 1])
    ensures Collapsed(s) == w + (" " + Collapsed(rest))
  {
    assert Collapsed(rest) == [];
    assert " " + [] == " ";
  }

  lemma CollapsedWords(w: string, ws: seq<string>)
    requires ws != []
    ensures JoinWords([w] + ws) == w + (" " + JoinWords(ws))
  {
    assert ([w] + ws)[1..] == ws;
  }

  /** Words joined by single spaces have no whitespace at either end. */
  lemma {:induction false} JoinWordsTrimmed(ws: seq<string>)
    requires forall k :: 0 <= k < |ws| ==> IsWord(ws[k])
    ensures Trimmed(JoinWords(ws)) && (ws != [] ==> JoinWords(ws) != [])
  {
    if |ws| > 1 {
      assert IsWord(ws[0]);
      JoinWordsTrimmed(ws[1..]);
    } else if |ws| == 1 {
      assert IsWord(ws[0]);
    }
  }

  /** Trimming removes a single space at either end of trimmed text. */
  lemma TrimPadded(lead: string, t: string, trail: string)
    requires lead == "" || lead == " "
    requires trail == "" || trail == " "
    requires Trimmed(t) && (t == [] ==> trail == "")
    ensures Trim(lead + t + trail) == t
  {
    var v := t + trail;
    if v != [] {
      assert v[0] == t[0];
    }
    assert TrimStart(v) == v;
    if lead == " " {
      var u := lead + t + trail;
      assert u[0] == ' ' && u[1..] == v;
      assert TrimStart(u) == TrimStart(v);
    } else {
      assert lead + t + trail == v;
    }
    if trail == " " {
      assert v[|v| - 1] == ' ' && v[..|v| - 1] == t;
      assert TrimEnd(v) == TrimEnd(t);
    } else {
      assert v == t;
    }
    assert TrimEnd(t) == t;
  }

  /** Collapsing then trimming gives the words joined by single spaces. */
  lemma TrimCollapseWords(raw: string)
    ensures Trim(CollapseWhitespace(raw)) == JoinWords(Words(raw))
  {
    CollapseWords(raw, false);
    JoinWordsTrimmed(Words(raw));
    var lead := if raw != [] && IsWhitespace(raw[0]) then " " else "";
    var trail := if raw != [] && IsWhitespace(raw[|raw| - 1]) && Words(raw) != [] then " " else "";
    assert CollapseWhitespace(raw) == lead + JoinWords(Words(raw)) + trail;
    TrimPadded(lead, JoinWords(Words(raw)), trail);
  }

  /** Sanitising is idempotent. */
  lemma SanitizeQueryIdempotent(raw: string)
    ensures SanitizeQuery(SanitizeQuery(raw)) == SanitizeQuery(raw)
  {
    var r := SanitizeQuery(raw);
    CollapseFixed(r, false);
    TrimNoop(r);
  }

  /** A query made only of whitespace sanitises to the empty string. */
  lemma {:induction false} SanitizeBlank(raw: string)
    requires forall i :: 0 <= i < |raw| ==> IsWhitespace(raw[i])
    ensures |CollapseWhitespace(raw)| <= 1
    ensures SanitizeQuery(raw) == ""
  {
    BlankCollapse(raw, false);
    var c := CollapseWhitespace(raw);
    assert forall i :: 0 <= i < |c| ==> IsWhitespace(c[i]);
    TrimEmptyIff(c);
  }

  lemma {:induction false} BlankCollapse(s: string, inRun: bool)
    requires forall i :: 0 <= i < |s| ==> IsWhitespace(s[i])
    ensures CollapseFrom(s, inRun) == if s == [] || inRun then [] else [' ']
  {
    if s != [] {
      assert forall i :: 0 <= i < |s[1..]| ==> IsWhitespace(s[1..][i]) by {
        assert forall i :: 0 <= i < |s[1..]| ==> s[1..][i] == s[i + 1];
      }
      BlankCollapse(s[1..], true);
    }
  }

  // ---------------------------------------------------------------------------
  // stripDiacritics

  /** U+0300..U+036F, the combining diacritical marks. */
  predicate IsCombiningMark(c: char) {
    '\U{0300}' <= c <= '\U{036F}'
  }

  /** The base letter of a Latin-1 letter whose canonical decomposition is a
      letter followed by combining marks; every other character is its own
      base. */
  function BaseLetter(c: char): (r: char)
    ensures (c as int) < 0x80 ==> r == c
    ensures !IsCombiningMark(r) || r == c
  {
    if '\U{00C0}' <= c <= '\U{00C5}' then 'A'
    else if c == '\U{00C7}' then 'C'
    else if '\U{00C8}' <= c <= '\U{00CB}' then 'E'
    else if '\U{00CC}' <= c <= '\U{00CF}' then 'I'
    else if c == '\U{00D1}' then 'N'
    else if '\U{00D2}' <= c <= '\U{00D6}' then 'O'
    else if '\U{00D9}' <= c <= '\U{00DC}' then 'U'
    else if c == '\U{00DD}' then 'Y'
    else if '\U{00E0}' <= c <= '\U{00E5}' then 'a'
    else if c == '\U{00E7}' then 'c'
    else if '\U{00E8}' <= c <= '\U{00EB}' then 'e'
    else if '\U{00EC}' <= c <= '\U{00EF}' then 'i'
    else if c == '\U{00F1}' then 'n'
    else if '\U{00F2}' <= c <= '\U{00F6}' then 'o'
    else if '\U{00F9}' <= c <= '\U{00FC}' then 'u'
    else if c == '\U{00FD}' || c == '\U{00FF}' then 'y'
    else c
  }

  /** `stripDiacritics`: canonical decomposition, then removal of U+0300..U+036F. */
  function StripDiacritics(s: string): (r: string)
    ensures |r| <= |s|
  {
    if s == [] then []
    else (if IsCombiningMark(s[0]) then [] else [BaseLetter(s[0])]) + StripDiacritics(s[1..])
  }

  /** Stripped text carries no combining mark, and stripping is idempotent. */
  lemma {:induction false} StripDiacriticsFacts(s: string)
    ensures forall i :: 0 <= i < |StripDiacritics(s)| ==> !IsCombiningMark(StripDiacritics(s)[i])
    ensures StripDiacritics(StripDiacritics(s)) == StripDiacritics(s)
  {
    if s != [] {
      StripDiacriticsFacts(s[1..]);
      if !IsCombiningMark(s[0]) {
        var b := BaseLetter(s[0]);
        var t := StripDiacritics(s[1..]);
        assert StripDiacritics(s) == [b] + t;
        assert !IsCombiningMark(b);
        assert ([b] + t)[0] == b;
        assert BaseLetter(b) == b;
        assert ([b] + t)[1..] == t;
        assert StripDiacritics([b] + t) == [b] + StripDiacritics(t);
        assert forall i :: 0 < i < |[b] + t| ==> ([b] + t)[i] == t[i - 1];
      } else {
        assert StripDiacritics(s) == [] + StripDiacritics(s[1..]) == StripDiacritics(s[1..]);
      }
    }
  }

  /** Stripping works character by character: a combining mark is dropped,
      and any other character becomes its base letter. */
  lemma StripDiacriticsChar(c: char)
    ensures StripDiacritics([c]) == if IsCombiningMark(c) then [] else [BaseLetter(c)]
  {
    assert [c][1..] == [];
  }

  /** The stripped form of a concatenation is the concatenation of the
      stripped parts. */
  lemma {:induction false} StripDiacriticsAppend(a: string, b: string)
    ensures StripDiacritics(a + b) == StripDiacritics(a) + StripDiacritics(b)
  {
    if a == [] {
      assert a + b == b;
    } else {
      assert (a + b)[0] == a[0] && (a + b)[1..] == a[1..] + b;
      StripDiacriticsAppend(a[1..], b);
    }
  }

  /** Stripping around one character: the text before and after it are
      stripped, and the character itself becomes its base letter or is
      dropped. */
  lemma StripAround(pre: string, c: char, post: string)
    ensures StripDiacritics(pre + [c] + post)
            == StripDiacritics(pre) + (if IsCombiningMark(c) then [] else [BaseLetter(c)]) + StripDiacritics(post)
  {
    StripDiacriticsAppend(pre + [c], post);
    StripDiacriticsAppend(pre, [c]);
    StripDiacriticsChar(c);
  }

  /** "canción" (precomposed U+00F3) strips to "cancion". */
  lemma StripCancion()
    ensures StripDiacritics("canci\U{00F3}n") == "cancion"
  {
    var pre, post := "canci", "n";
    assert "canci\U{00F3}n" == pre + ['\U{00F3}'] + post;
    StripAround(pre, '\U{00F3}', post);
    StripDiacriticsAscii(pre);
    StripDiacriticsAscii(post);
    assert BaseLetter('\U{00F3}') == 'o';
    assert pre + ['o'] + post == "cancion";
  }

  /** "canción" (an "o" followed by U+0301) strips to "cancion". */
  lemma StripCancionDecomposed()
    ensures StripDiacritics("cancio\U{0301}n") == "cancion"
  {
    var pre, post := "cancio", "n";
    assert "cancio\U{0301}n" == pre + ['\U{0301}'] + post;
    StripAround(pre, '\U{0301}', post);
    StripDiacriticsAscii(pre);
    StripDiacriticsAscii(post);
    assert pre + [] + post == "cancion";
  }

  /** ASCII text is left as it is. */
  lemma {:induction false} StripDiacriticsAscii(s: string)
    requires forall i :: 0 <= i < |s| ==> (s[i] as int) < 0x80
    ensures StripDiacritics(s) == s
  {
    if s != [] {
      assert forall i :: 0 <= i < |s[1..]| ==> (s[1..][i] as int) < 0x80 by {
        assert forall i :: 0 <= i < |s[1..]| ==> s[1..][i] == s[i + 1];
      }
      StripDiacriticsAscii(s[1..]);
      assert s == [s[0]] + s[1..];
    }
  }

  // ---------------------------------------------------------------------------
  // escapeRegExp and the case-insensitive test

  /** The characters `escapeRegExp` escapes. */
  predicate IsRegExpSpecial(c: char) {
    c == '.' || c == '*' || c == '+' || c == '?' || c == '^' || c == '$' || c == '{' || c == '}'
    || c == '(' || c == ')' || c == '|' || c == '[' || c == ']' || c == '\\'
  }

  /** `escapeRegExp`. */
  function EscapeRegExp(literal: string): (r: string)
    ensures |r| >= |literal|
  {
    if literal == [] then []
    else (if IsRegExpSpecial(literal[0]) then ['\\', literal[0]] else [literal[0]]) + EscapeRegExp(literal[1..])
  }

  /** The literal a pattern of plain characters and escaped special characters
      stands for; `None` for any other pattern, whose meaning is not modelled. */
  function PatternLiteral(pattern: string): Option<string> {
    if pattern == [] then Some([])
    else if pattern[0] == '\\' then
      if |pattern| >= 2 && IsRegExpSpecial(pattern[1]) then
        match PatternLiteral(pattern[2..])
        case Some(rest) => Some([pattern[1]] + rest)
        case None => None
      else None
    else if IsRegExpSpecial(pattern[0]) then None
    else match PatternLiteral(pattern[1..])
      case Some(rest) => Some([pattern[0]] + rest)
      case None => None
  }

  /** The escaped pattern stands for exactly the literal it was built from. */
  lemma {:induction false} EscapeRegExpLiteral(literal: string)
    ensures PatternLiteral(EscapeRegExp(literal)) == Some(literal)
  {
    if literal != [] {
      var c := literal[0];
      var rest := EscapeRegExp(literal[1..]);
      EscapeRegExpLiteral(literal[1..]);
      if IsRegExpSpecial(c) {
        var p := ['\\', c] + rest;
        assert p[0] == '\\' && p[1] == c && p[2..] == rest;
      } else {
        var p := [c] + rest;
        assert p[0] == c && p[1..] == rest;
      }
      assert literal == [c] + literal[1..];
    }
  }

  /** Escaping loses nothing: different literals give different patterns. */
  lemma EscapeRegExpInjective(a: string, b: string)
    ensures EscapeRegExp(a) == EscapeRegExp(b) <==> a == b
  {
    EscapeRegExpLiteral(a);
    EscapeRegExpLiteral(b);
  }

  /** The canonical form the `i` flag compares characters by, for the
      characters up to U+00FF: a character maps to its upper case when that is
      a single character and is not an ASCII character replacing a non-ASCII
      one. */
  function Canonicalize(c: char): char {
    if 'a' <= c <= 'z' then (c as int - 32) as char
    else if '\U{00E0}' <= c <= '\U{00FE}' && c != '\U{00F7}' then (c as int - 32) as char
    else if c == '\U{00B5}' then '\U{039C}'
    else if c == '\U{00FF}' then '\U{0178}'
    else c
  }

  function Fold(s: string): (r: string)
    ensures |r| == |s| && forall i :: 0 <= i < |s| ==> r[i] == Canonicalize(s[i])
  {
    if s == [] then [] else [Canonicalize(s[0])] + Fold(s[1..])
  }

  /** `new RegExp(pattern, "i").test(subject)` for literal patterns. */
  predicate RegExpTestI(pattern: string, subject: string) {
    match PatternLiteral(pattern)
    case Some(literal) => Contains(Fold(subject), Fold(literal))
    case None => false
  }

  /** The search condition itself: the stripped text contains the stripped
      query, ignoring case. */
  predicate TextMatches(text: string, query: string) {
    Contains(Fold(StripDiacritics(text)), Fold(StripDiacritics(query)))
  }

  // ---------------------------------------------------------------------------
  // Selectors

  /** `selectAllItems`: every item, newest first. */
  function SelectAllItems(s: PhrasesState): (r: seq<Phrase>)
    ensures SortedDesc(r) && multiset(r) == multiset(s.items) && |r| == |s.items|
  {
    if |s.items| <= 1 then s.items else SortByCreatedAtDesc(s.items)
  }

  /** `selectIsFiltered`: the minimum length counts UTF-16 units, so a query
      of two or more characters always filters and a blank one never does. */
  predicate SelectIsFiltered(s: PhrasesState): (b: bool)
    ensures b ==> SanitizeQuery(s.query) != ""
    ensures |SanitizeQuery(s.query)| >= MinQueryLength ==> b
  {
    Utf16Length(SanitizeQuery(s.query)) >= MinQueryLength
  }

  /** `items.filter(p => pattern.test(stripDiacritics(p.text)))`. */
  function FilterByPattern(items: seq<Phrase>, pattern: string): (r: seq<Phrase>)
    ensures |r| <= |items|
  {
    if items == [] then []
    else (if RegExpTestI(pattern, StripDiacritics(items[0].text)) then [items[0]] else [])
         + FilterByPattern(items[1..], pattern)
  }

  /** `selectFilteredItems`: never more items than the state holds, and
      still newest first. */
  function SelectFilteredItems(s: PhrasesState): (r: seq<Phrase>)
    ensures |r| <= |s.items|
    ensures SortedDesc(r)
  {
    var items := SelectAllItems(s);
    var sanitized := SanitizeQuery(s.query);
    if Utf16Length(sanitized) < MinQueryLength then items
    else
      FilterByPatternSorted(items, sanitized);
      FilterByPattern(items, EscapeRegExp(StripDiacritics(sanitized)))
  }

  datatype Counts = Counts(total: nat, filtered: nat)

  /** `selectCounts`: the total counts every item, the filtered count never
      exceeds it and equals it when nothing is filtered. */
  function SelectCounts(s: PhrasesState): (r: Counts)
    ensures r.total == |s.items|
    ensures r.filtered <= r.total
    ensures !SelectIsFiltered(s) ==> r.filtered == r.total
  {
    Counts(|SelectAllItems(s)|, |SelectFilteredItems(s)|)
  }

  /** The shortcut `selectAllItems` takes for one item or none agrees with
      sorting. */
  lemma SelectAllItemsSorted(s: PhrasesState)
    ensures SelectAllItems(s) == SortByCreatedAtDesc(s.items)
  {
    if |s.items| <= 1 {
      SortSortedIdentity(s.items);
    }
  }

  /** A blank query never activates the search. */
  lemma IsFilteredBlank(s: PhrasesState)
    requires forall i :: 0 <= i < |s.query| ==> IsWhitespace(s.query[i])
    ensures !SelectIsFiltered(s)
  {
    SanitizeBlank(s.query);
  }

  /** The minimum length counts UTF-16 units: a single character outside
      the Basic Multilingual Plane, such as an emoji, already activates the
      search, while a single other character does not. */
  lemma AstralQueryFilters()
    ensures SelectIsFiltered(PhrasesState([], "\U{1F600}", Idle, None))
    ensures !SelectIsFiltered(PhrasesState([], "a", Idle, None))
  {
    assert CollapseWhitespace("\U{1F600}") == "\U{1F600}";
    assert CollapseWhitespace("a") == "a";
    TrimNoop("\U{1F600}");
    TrimNoop("a");
  }

  /** The pattern test of a stripped text is the search condition. */
  lemma PatternTestIsMatch(text: string, sanitized: string)
    ensures RegExpTestI(EscapeRegExp(StripDiacritics(sanitized)), StripDiacritics(text)) == TextMatches(text, sanitized)
  {
    EscapeRegExpLiteral(StripDiacritics(sanitized));
  }

  lemma {:induction false} FilterByPatternMember(items: seq<Phrase>, sanitized: string, x: Phrase)
    ensures x in FilterByPattern(items, EscapeRegExp(StripDiacritics(sanitized)))
            <==> x in items && TextMatches(x.text, sanitized)
  {
    if items != [] {
      FilterByPatternMember(items[1..], sanitized, x);
      PatternTestIsMatch(items[0].text, sanitized);
      assert items == [items[0]] + items[1..];
    }
  }

  /** The filter keeps every matching item as often as it occurs, and drops
      every other one. */
  lemma {:induction false} FilterByPatternCount(items: seq<Phrase>, sanitized: string, x: Phrase)
    ensures multiset(FilterByPattern(items, EscapeRegExp(StripDiacritics(sanitized))))[x]
            == if TextMatches(x.text, sanitized) then multiset(items)[x] else 0
  {
    if items != [] {
      FilterByPatternCount(items[1..], sanitized, x);
      PatternTestIsMatch(items[0].text, sanitized);
      assert items == [items[0]] + items[1..];
    }
  }

  /** The filter keeps the survivors in their order. */
  lemma {:induction false} FilterByPatternAppend(a: seq<Phrase>, b: seq<Phrase>, pattern: string)
    ensures FilterByPattern(a + b, pattern) == FilterByPattern(a, pattern) + FilterByPattern(b, pattern)
  {
    if a == [] {
      assert a + b == b;
    } else {
      var h := if RegExpTestI(pattern, StripDiacritics(a[0].text)) then [a[0]] else [];
      assert (a + b)[0] == a[0] && (a + b)[1..] == a[1..] + b;
      calc {
        FilterByPattern(a + b, pattern);
        h + FilterByPattern(a[1..] + b, pattern);
        { FilterByPatternAppend(a[1..], b, pattern); }
        h + (FilterByPattern(a[1..], pattern) + FilterByPattern(b, pattern));
        (h + FilterByPattern(a[1..], pattern)) + FilterByPattern(b, pattern);
      }
    }
  }

  lemma {:induction false} FilterByPatternSorted(items: seq<Phrase>, sanitized: string)
    requires SortedDesc(items)
    ensures SortedDesc(FilterByPattern(items, EscapeRegExp(StripDiacritics(sanitized))))
  {
    var pattern := EscapeRegExp(StripDiacritics(sanitized));
    if items != [] {
      var y, rest := items[0], items[1..];
      assert SortedDesc(rest) by {
        forall i, j | 0 <= i < j < |rest| ensures rest[i].createdAt >= rest[j].createdAt {
          assert rest[i] == items[i + 1] && rest[j] == items[j + 1];
        }
      }
      FilterByPatternSorted(rest, sanitized);
      var t := FilterByPattern(rest, pattern);
      if RegExpTestI(pattern, StripDiacritics(y.text)) {
        forall k | 0 <= k < |t| ensures y.createdAt >= t[k].createdAt {
          FilterByPatternMember(rest, sanitized, t[k]);
          var m :| 0 <= m < |rest| && rest[m] == t[k];
          assert items[m + 1] == t[k];
        }
        SortedCons(y, t);
      }
    }
  }

  /** Without an active search every item is shown, newest first. */
  lemma FilteredInactive(s: PhrasesState)
    requires !SelectIsFiltered(s)
    ensures SelectFilteredItems(s) == SelectAllItems(s)
  {
  }

  /** With an active search, exactly the items whose stripped text contains the
      stripped query, ignoring case, are shown, still newest first. */
  lemma FilteredActive(s: PhrasesState)
    requires SelectIsFiltered(s)
    ensures var q := SanitizeQuery(s.query);
            (forall x :: x in SelectFilteredItems(s) <==> x in s.items && TextMatches(x.text, q))
            && (forall x :: multiset(SelectFilteredItems(s))[x]
                             == if TextMatches(x.text, q) then multiset(s.items)[x] else 0)
            && SortedDesc(SelectFilteredItems(s))
  {
    var q := SanitizeQuery(s.query);
    var all := SelectAllItems(s);
    SelectAllItemsSorted(s);
    forall x ensures x in SelectFilteredItems(s) <==> x in s.items && TextMatches(x.text, q) {
      FilterByPatternMember(all, q, x);
      assert x in all <==> x in multiset(all);
      assert x in s.items <==> x in multiset(s.items);
    }
    forall x ensures multiset(SelectFilteredItems(s))[x]
                     == if TextMatches(x.text, q) then multiset(s.items)[x] else 0 {
      FilterByPatternCount(all, q, x);
    }
  }
}
