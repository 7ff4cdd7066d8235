/**
  The two identifier-casing stages of the transcript post-processor:
  "camel case foo bar baz" becomes "fooBarBaz" and "snake case foo bar baz"
  becomes "foo_bar_baz".  Each stage is one re.sub pass of the pattern
  `<trigger>\s+((?:\w+\s*){2,})` with re.IGNORECASE, written out here as an
  explicit left-to-right scanner.
*/
module Casing {
  import opened Text

  datatype Option<T> = None | Some(value: T)

  datatype Style = Camel | Snake

  /** The literal trigger text; its two words are separated by one space. */
  function Trigger(style: Style): string {
    match style
    case Camel => "camel case"
    case Snake => "snake case"
  }

  predicate IsWordOrSpace(c: char) { IsWordChar(c) || IsSpace(c) }

  predicate StartsWithIgnoringCase(s: string, p: string) {
    |p| <= |s| && SameIgnoringCase(s[..|p|], p)
  }

  /** Where the whitespace run starting at i ends: what `\s+` consumes greedily. */
  function SpaceRunEnd(s: string, i: nat): (j: nat)
    requires i <= |s|
    ensures i <= j <= |s|
    ensures forall k :: i <= k < j ==> IsSpace(s[k])
    ensures j == |s| || !IsSpace(s[j])
    decreases |s| - i
  {
    if i == |s| || !IsSpace(s[i]) then i else SpaceRunEnd(s, i + 1)
  }

  /** Where the run of word and whitespace characters starting at i ends. */
  function WordTextEnd(s: string, i: nat): (j: nat)
    requires i <= |s|
    ensures i <= j <= |s|
    ensures forall k :: i <= k < j ==> IsWordOrSpace(s[k])
    ensures j == |s| || !IsWordOrSpace(s[j])
    decreases |s| - i
  {
    if i == |s| || !IsWordOrSpace(s[i]) then i else WordTextEnd(s, i + 1)
  }

  /** The number of word characters among s[i..j]. */
  function WordCharsBetween(s: string, i: nat, j: nat): nat
    requires i <= j <= |s|
    decreases j - i
  {
    if i == j then 0 else (if IsWordChar(s[i]) then 1 else 0) + WordCharsBetween(s, i + 1, j)
  }

  /** A successful match: where it ends in the scanned text, and capture group 1. */
  datatype CasingMatch = CasingMatch(end: nat, group: string)

  /** The match of `trigger\s+((?:\w+\s*){2,})`, case-insensitive, anchored at
      the start of `s`: the trigger, the whole whitespace run after it (`\s+`
      is greedy), then as group 1 the whole run of word and whitespace
      characters that follows, provided it holds two word characters. */
  function MatchCasing(s: string, trigger: string): (m: Option<CasingMatch>)
    ensures m.Some? ==> |trigger| < m.value.end <= |s|
  {
    var t := |trigger|;
    if !StartsWithIgnoringCase(s, trigger) then None
    else
      var g := SpaceRunEnd(s, t);
      if g == t then None
      else
        var e := WordTextEnd(s, g);
        if WordCharsBetween(s, g, e) < 2 then None
        else Some(CasingMatch(e, s[g..e]))
  }

  /** When the regex matches: the trigger, at least one whitespace
      character, and at least two word characters in the run of word and
      whitespace characters after the trigger (`\s*` may match nothing and
      backtracking may cut one word in two, so one two-letter word is
      enough). */
  lemma {:induction false} MatchCasingWhen(s: string, trigger: string)
    ensures var t := |trigger|;
      MatchCasing(s, trigger).Some? <==>
        && StartsWithIgnoringCase(s, trigger)
        && t < |s| && IsSpace(s[t])
        && WordCharsBetween(s, t, WordTextEnd(s, t)) >= 2
  {
    var t := |trigger|;
    if StartsWithIgnoringCase(s, trigger) && t < |s| && IsSpace(s[t]) {
      var g := SpaceRunEnd(s, t);
      SpacesBelongToWordText(s, t);
      SkippedSpacesHoldNoWordChar(s, t, g, WordTextEnd(s, g));
    }
  }

  /** What the match spans: the whole run of word and whitespace characters
      after the trigger, trailing whitespace included, stopping only at a
      character that is neither; the group, once stripped and split, gives
      the same words as that span. */
  lemma {:induction false} MatchCasingIsGreedy(s: string, trigger: string)
    requires MatchCasing(s, trigger).Some?
    ensures var m := MatchCasing(s, trigger).value; var t := |trigger|;
      && t + 3 <= m.end
      && (forall k :: t <= k < m.end ==> IsWordOrSpace(s[k]))
      && (m.end == |s| || !IsWordOrSpace(s[m.end]))
      && Words(m.group) == Words(s[t..m.end])
  {
    var t := |trigger|;
    var g := SpaceRunEnd(s, t);
    var e := WordTextEnd(s, g);
    assert MatchCasing(s, trigger).value == CasingMatch(e, s[g..e]);
    WordCharsBetweenBound(s, g, e);
    assert s[t..e] == s[t..g] + s[g..e];
    WordsAfterSpaces(s[t..g], s[g..e]);
  }

  /** The whitespace run after position t is part of the word-and-whitespace
      run from t: both runs end at the same place. */
  lemma {:induction false} SpacesBelongToWordText(s: string, t: nat)
    requires t <= |s|
    ensures WordTextEnd(s, t) == WordTextEnd(s, SpaceRunEnd(s, t))
    decreases |s| - t
  {
    if t < |s| && IsSpace(s[t]) {
      SpacesBelongToWordText(s, t + 1);
    }
  }

  lemma {:induction false} SkippedSpacesHoldNoWordChar(s: string, t: nat, g: nat, e: nat)
    requires t <= g <= e <= |s|
    requires forall k :: t <= k < g ==> IsSpace(s[k])
    ensures WordCharsBetween(s, t, e) == WordCharsBetween(s, g, e)
    decreases g - t
  {
    if t < g {
      SkippedSpacesHoldNoWordChar(s, t + 1, g, e);
    }
  }

  lemma {:induction false} WordCharsBetweenBound(s: string, i: nat, j: nat)
    requires i <= j <= |s|
    ensures WordCharsBetween(s, i, j) <= j - i
    decreases j - i
  {
    if i < j {
      WordCharsBetweenBound(s, i + 1, j);
    }
  }

  lemma {:induction false} WordsAfterSpaces(a: string, b: string)
    requires forall k :: 0 <= k < |a| ==> IsSpace(a[k])
    ensures Words(a + b) == Words(b)
  {
    if a == [] {
      assert a + b == b;
    } else {
      assert (a + b)[1..] == a[1..] + b;
      WordsAfterSpaces(a[1..], b);
    }
  }

  /** _to_camel: the first word lower-cased, every later word capitalized,
      joined with no separator; no words gives the empty string. */
  function ToCamel(words: seq<string>): string {
    if words == [] then [] else LowerStr(words[0]) + CapitalizedConcat(words[1..])
  }

  function CapitalizedConcat(words: seq<string>): string {
    if words == [] then [] else Capitalize(words[0]) + CapitalizedConcat(words[1..])
  }

  /** _to_snake: every word lower-cased, joined with "_". */
  function ToSnake(words: seq<string>): string {
    JoinWith('_', LowerAll(words))
  }

  function Fold(style: Style, words: seq<string>): string {
    match style
    case Camel => ToCamel(words)
    case Snake => ToSnake(words)
  }

  /** One re.sub pass: scan left to right; where the pattern matches, emit the
      folded identifier and resume after the match, otherwise copy one
      character.  The pattern has no look-behind, so whether it matches at a
      position depends only on the text from that position on. */
  function ApplyCasing(s: string, style: Style): string
    decreases |s|
  {
    if s == [] then []
    else
      match MatchCasing(s, Trigger(style))
      case Some(m) => Fold(style, Words(m.group)) + ApplyCasing(s[m.end..], style)
      case None => [s[0]] + ApplyCasing(s[1..], style)
  }

  /** _apply_camel_case */
  function ApplyCamelCase(s: string): string {
    ApplyCasing(s, Camel)
  }

  /** _apply_snake_case */
  function ApplySnakeCase(s: string): string {
    ApplyCasing(s, Snake)
  }

  // ---------------------------------------------------------------------
  // Properties of the scanner

  /** Where the trigger never fires, the stage returns its input unchanged. */
  lemma {:induction false} ApplyCasingWithoutMatch(s: string, style: Style)
    requires forall i :: 0 <= i < |s| ==> MatchCasing(s[i..], Trigger(style)).None?
    ensures ApplyCasing(s, style) == s
    decreases |s|
  {
    if s != [] {
      assert MatchCasing(s[0..], Trigger(style)).None?;
      assert s[0..] == s;
      forall i | 0 <= i < |s[1..]|
        ensures MatchCasing(s[1..][i..], Trigger(style)).None?
      {
        assert s[1..][i..] == s[i + 1..];
      }
      ApplyCasingWithoutMatch(s[1..], style);
    }
  }

  /** The stage copies the text unchanged up to the first position where the
      trigger fires, and goes on from there. */
  lemma {:induction false} CasingCopiedUpTo(s: string, style: Style, i: nat)
    requires i <= |s|
    requires forall j :: 0 <= j < i ==> MatchCasing(s[j..], Trigger(style)).None?
    ensures ApplyCasing(s, style) == s[..i] + ApplyCasing(s[i..], style)
    decreases i
  {
    if i > 0 {
      NoMatchAtFirst(s, style, i);
      CopyOneChar(s, style);
      CasingCopiedUpTo(s[1..], style, i - 1);
      SplitAfterFirst(s, i);
      PrependCopied(ApplyCasing(s, style), s[0], s[1..][..i - 1], ApplyCasing(s[1..], style), ApplyCasing(s[i..], style));
    }
  }

  lemma {:induction false} PrependCopied(x: string, c: char, copied: string, y: string, z: string)
    requires x == [c] + y && y == copied + z
    ensures x == ([c] + copied) + z
  {
  }

  /** Where the trigger does not fire at the start, the stage copies the
      first character. */
  lemma {:induction false} CopyOneChar(s: string, style: Style)
    requires s != [] && MatchCasing(s, Trigger(style)).None?
    ensures ApplyCasing(s, style) == [s[0]] + ApplyCasing(s[1..], style)
  {
  }

  lemma {:induction false} SplitAfterFirst(s: string, i: nat)
    requires 0 < i <= |s|
    ensures s[..i] == [s[0]] + s[1..][..i - 1] && s[1..][i - 1..] == s[i..]
  {
  }

  /** No match at the first i positions: none at the first, and none at the
      first i - 1 of the text after it. */
  lemma {:induction false} NoMatchAtFirst(s: string, style: Style, i: nat)
    requires 0 < i <= |s|
    requires forall j :: 0 <= j < i ==> MatchCasing(s[j..], Trigger(style)).None?
    ensures MatchCasing(s, Trigger(style)).None?
    ensures forall j :: 0 <= j < i - 1 ==> MatchCasing(s[1..][j..], Trigger(style)).None?
  {
    assert s[0..] == s;
    forall j | 0 <= j < i - 1 ensures MatchCasing(s[1..][j..], Trigger(style)).None? {
      assert s[1..][j..] == s[j + 1..];
    }
  }

  /** The trigger cannot fire at a character that is not, in either case,
      its first letter. */
  lemma {:induction false} TriggerCannotStart(s: string, style: Style, i: nat)
    requires i <= |s|
    requires forall k :: 0 <= k < i ==> Lower(s[k]) != Trigger(style)[0]
    ensures forall j :: 0 <= j < i ==> MatchCasing(s[j..], Trigger(style)).None?
  {
    var trigger := Trigger(style);
    assert Lower(trigger[0]) == trigger[0];
    forall j | 0 <= j < i ensures MatchCasing(s[j..], trigger).None? {
      if |trigger| <= |s| - j {
        assert s[j..][..|trigger|][0] == s[j];
      }
    }
  }

  /** Text too short to hold the trigger, a space and two word characters is
      left alone. */
  lemma {:induction false} ShortTextUnchanged(s: string, style: Style)
    requires |s| < |Trigger(style)| + 3
    ensures ApplyCasing(s, style) == s
  {
    forall i | 0 <= i < |s|
      ensures MatchCasing(s[i..], Trigger(style)).None?
    {
      if MatchCasing(s[i..], Trigger(style)).Some? {
        MatchCasingIsGreedy(s[i..], Trigger(style));
      }
    }
    ApplyCasingWithoutMatch(s, style);
  }

  /** A text in which some letter of the trigger never appears, in either
      case, is left alone. */
  lemma {:induction false} TriggerLetterMissing(s: string, style: Style, j: nat)
    requires j < |Trigger(style)|
    requires forall k :: 0 <= k < |s| ==> Lower(s[k]) != Trigger(style)[j]
    ensures ApplyCasing(s, style) == s
  {
    TriggerLetterMissingNoMatch(s, style, j);
    ApplyCasingWithoutMatch(s, style);
  }

  /** Where some letter of the trigger never appears, in either case, the
      trigger matches at no position. */
  lemma {:induction false} TriggerLetterMissingNoMatch(s: string, style: Style, j: nat)
    requires j < |Trigger(style)|
    requires forall k :: 0 <= k < |s| ==> Lower(s[k]) != Trigger(style)[j]
    ensures forall i :: 0 <= i < |s| ==> MatchCasing(s[i..], Trigger(style)).None?
  {
    var trigger := Trigger(style);
    var t := |trigger|;
    assert LowerStr(trigger) == trigger;
    forall i | 0 <= i < |s| ensures MatchCasing(s[i..], trigger).None? {
      if t <= |s| - i {
        var head := s[i..][..t];
        SameIgnoringCaseIffLowerEqual(head, trigger);
        assert LowerStr(head)[j] == Lower(s[i + j]);
      }
    }
  }

  /** Whatever a match spans is replaced by one identifier: word characters
      only, no whitespace left between the words. */
  lemma {:induction false} FoldedSpanIsIdentifier(s: string, style: Style)
    requires MatchCasing(s, Trigger(style)).Some?
    ensures AllWordChars(Fold(style, Words(MatchCasing(s, Trigger(style)).value.group)))
  {
    var t := |Trigger(style)|;
    var m := MatchCasing(s, Trigger(style)).value;
    MatchCasingIsGreedy(s, Trigger(style));
    var span := s[t..m.end];
    assert forall k :: 0 <= k < |span| ==> span[k] == s[t + k];
    WordsOfWordText(span);
    FoldOfWordsIsWordText(style, Words(span));
  }

  lemma {:induction false} FoldOfWordsIsWordText(style: Style, words: seq<string>)
    requires forall w :: w in words ==> AllWordChars(w)
    ensures AllWordChars(Fold(style, words))
  {
    match style
    case Camel =>
      if words != [] {
        LowerKeepsWordChars(words[0]);
        CapitalizedConcatIsWordText(words[1..]);
      }
    case Snake =>
      forall w | w in LowerAll(words) ensures AllWordChars(w) {
        var i :| 0 <= i < |words| && w == LowerStr(words[i]);
        LowerKeepsWordChars(words[i]);
      }
      JoinWithWordText('_', LowerAll(words));
  }

  lemma {:induction false} LowerKeepsWordChars(w: string)
    requires AllWordChars(w)
    ensures AllWordChars(LowerStr(w)) && AllWordChars(Capitalize(w))
  {
    if w != [] {
      assert AllWordChars(w[1..]);
      assert AllWordChars(LowerStr(w[1..]));
    }
  }

  lemma {:induction false} CapitalizedConcatIsWordText(words: seq<string>)
    requires forall w :: w in words ==> AllWordChars(w)
    ensures AllWordChars(CapitalizedConcat(words))
  {
    if words != [] {
      LowerKeepsWordChars(words[0]);
      CapitalizedConcatIsWordText(words[1..]);
    }
  }

  lemma {:induction false} JoinWithWordText(sep: char, words: seq<string>)
    requires IsWordChar(sep)
    requires forall w :: w in words ==> AllWordChars(w)
    ensures AllWordChars(JoinWith(sep, words))
  {
    if |words| > 1 {
      var tail := JoinWith(sep, words[1..]);
      JoinWithWordText(sep, words[1..]);
      assert words[0] in words;
      var r := words[0] + [sep] + tail;
      forall k | 0 <= k < |r| ensures IsWordChar(r[k]) {
        if k > |words[0]| {
          assert r[k] == tail[k - |words[0]| - 1];
        }
      }
    }
  }

  // ---------------------------------------------------------------------
  // Partners of the two conversions: each is undone by a split

  /** Splits a camel-case identifier before every upper-case letter and
      lower-cases the pieces. */
  function SplitCamel(s: string): seq<string>
    decreases |s|
  {
    if s == [] then []
    else
      var n := 1 + NoUpperRunLength(s[1..]);
      [LowerStr(s[..n])] + SplitCamel(s[n..])
  }

  function NoUpperRunLength(s: string): (n: nat)
    ensures n <= |s|
    ensures forall k :: 0 <= k < n ==> !IsUpper(s[k])
    ensures n == |s| || IsUpper(s[n])
  {
    if s == [] || IsUpper(s[0]) then 0 else 1 + NoUpperRunLength(s[1..])
  }

  /** Words that a camel-case identifier can be split back into: non-empty,
      and every word after the first starting with a letter. */
  predicate CamelSplittable(words: seq<string>) {
    && (forall i :: 0 <= i < |words| ==> words[i] != [])
    && (forall i :: 1 <= i < |words| ==> IsLetter(words[i][0]))
  }

  /** Camel folding loses only the case of the words: splitting the identifier
      at its capitals gives back the lower-cased words, and the first word
      comes out with no capital at all. */
  lemma {:induction false} CamelRoundTrip(words: seq<string>)
    requires CamelSplittable(words)
    ensures SplitCamel(ToCamel(words)) == LowerAll(words)
    ensures words != [] ==> |words[0]| <= |ToCamel(words)| && HasNoUpper(ToCamel(words)[..|words[0]|])
  {
    if words != [] {
      var first := LowerStr(words[0]);
      var rest := CapitalizedConcat(words[1..]);
      assert ToCamel(words)[..|words[0]|] == first;
      LowerHasNoUpper(words[0]);
      CapitalizedConcatStartsUpper(words[1..]);
      SplitCamelHump(first, rest);
      LowerIdempotent(words[0]);
      CapitalizedRoundTrip(words[1..]);
      LowerAllCons(words);
    }
  }

  lemma {:induction false} CapitalizedRoundTrip(words: seq<string>)
    requires forall i :: 0 <= i < |words| ==> words[i] != [] && IsLetter(words[i][0])
    ensures SplitCamel(CapitalizedConcat(words)) == LowerAll(words)
  {
    if words != [] {
      var hump := Capitalize(words[0]);
      var rest := CapitalizedConcat(words[1..]);
      CapitalizeHasOneCapital(words[0]);
      CapitalizedConcatStartsUpper(words[1..]);
      SplitCamelHump(hump, rest);
      LowerOfCapitalize(words[0]);
      CapitalizedRoundTrip(words[1..]);
      LowerAllCons(words);
    }
  }

  lemma {:induction false} LowerAllCons(words: seq<string>)
    requires words != []
    ensures LowerAll(words) == [LowerStr(words[0])] + LowerAll(words[1..])
  {
  }

  /** SplitCamel cuts a hump off whole when the next one starts with a capital. */
  lemma {:induction false} SplitCamelHump(hump: string, rest: string)
    requires hump != [] && HasNoUpper(hump[1..])
    requires rest == [] || IsUpper(rest[0])
    ensures SplitCamel(hump + rest) == [LowerStr(hump)] + SplitCamel(rest)
  {
    var s := hump + rest;
    NoUpperRunOf(hump[1..], rest);
    assert s[1..] == hump[1..] + rest;
    assert s[..|hump|] == hump;
    assert s[|hump|..] == rest;
  }

  lemma {:induction false} NoUpperRunOf(a: string, rest: string)
    requires HasNoUpper(a)
    requires rest == [] || IsUpper(rest[0])
    ensures NoUpperRunLength(a + rest) == |a|
  {
    if a != [] {
      assert (a + rest)[1..] == a[1..] + rest;
      NoUpperRunOf(a[1..], rest);
    }
  }

  lemma {:induction false} CapitalizedConcatStartsUpper(words: seq<string>)
    requires forall i :: 0 <= i < |words| ==> words[i] != [] && IsLetter(words[i][0])
    ensures CapitalizedConcat(words) == [] || IsUpper(CapitalizedConcat(words)[0])
  {
  }

  lemma {:induction false} LowerHasNoUpper(w: string)
    ensures HasNoUpper(LowerStr(w))
  {
  }

  lemma {:induction false} CapitalizeHasOneCapital(w: string)
    requires w != []
    ensures HasNoUpper(Capitalize(w)[1..])
  {
    assert Capitalize(w)[1..] == LowerStr(w[1..]);
  }

  lemma {:induction false} LowerIdempotent(w: string)
    ensures LowerStr(LowerStr(w)) == LowerStr(w)
  {
  }

  lemma {:induction false} LowerOfCapitalize(w: string)
    requires w != []
    ensures LowerStr(Capitalize(w)) == LowerStr(w)
  {
    assert LowerStr(w) == [Lower(w[0])] + LowerStr(w[1..]);
    assert LowerStr(Capitalize(w)) == [Lower(Upper(w[0]))] + LowerStr(LowerStr(w[1..]));
  }

  /** str.split(sep) for a one-character separator. */
  function SplitOn(sep: char, s: string): (parts: seq<string>)
    ensures |parts| >= 1
    decreases |s|
  {
    var n := RunWithout(sep, s);
    if n == |s| then [s] else [s[..n]] + SplitOn(sep, s[n + 1..])
  }

  function RunWithout(sep: char, s: string): (n: nat)
    ensures n <= |s|
    ensures forall k :: 0 <= k < n ==> s[k] != sep
    ensures n == |s| || s[n] == sep
  {
    if s == [] || s[0] == sep then 0 else 1 + RunWithout(sep, s[1..])
  }

  /** Snake folding loses only the case of the words: splitting the identifier
      at "_" gives back the lower-cased words, as long as no word holds "_"
      itself. */
  lemma {:induction false} SnakeRoundTrip(words: seq<string>)
    requires words != []
    requires forall i :: 0 <= i < |words| ==> '_' !in words[i]
    ensures SplitOn('_', ToSnake(words)) == LowerAll(words)
    ensures HasNoUpper(ToSnake(words))
  {
    var lowered := LowerAll(words);
    forall i | 0 <= i < |lowered| ensures '_' !in lowered[i] {
      assert forall k :: 0 <= k < |words[i]| ==> lowered[i][k] == Lower(words[i][k]);
    }
    SplitOfJoin('_', lowered);
    forall w | w in lowered ensures HasNoUpper(w) {
      var i :| 0 <= i < |words| && w == LowerStr(words[i]);
      LowerHasNoUpper(words[i]);
    }
    JoinWithHasNoUpper('_', lowered);
  }

  lemma {:induction false} SplitOfJoin(sep: char, parts: seq<string>)
    requires parts != []
    requires forall i :: 0 <= i < |parts| ==> sep !in parts[i]
    ensures SplitOn(sep, JoinWith(sep, parts)) == parts
  {
    if |parts| == 1 {
      RunWithoutOf(sep, parts[0], []);
      assert parts[0] + [] == parts[0];
    } else {
      var rest := JoinWith(sep, parts[1..]);
      var s := parts[0] + [sep] + rest;
      RunWithoutOf(sep, parts[0], [sep] + rest);
      assert s == parts[0] + ([sep] + rest);
      assert s[..|parts[0]|] == parts[0];
      assert s[|parts[0]| + 1..] == rest;
      SplitOfJoin(sep, parts[1..]);
    }
  }

  lemma {:induction false} RunWithoutOf(sep: char, a: string, rest: string)
    requires sep !in a
    requires rest == [] || rest[0] == sep
    ensures RunWithout(sep, a + rest) == |a|
  {
    if a != [] {
      assert (a + rest)[1..] == a[1..] + rest;
      RunWithoutOf(sep, a[1..], rest);
    }
  }

  lemma {:induction false} JoinWithHasNoUpper(sep: char, parts: seq<string>)
    requires !IsUpper(sep)
    requires forall w :: w in parts ==> HasNoUpper(w)
    ensures HasNoUpper(JoinWith(sep, parts))
  {
    if |parts| > 1 {
      var tail := JoinWith(sep, parts[1..]);
      JoinWithHasNoUpper(sep, parts[1..]);
      assert parts[0] in parts;
      var r := parts[0] + [sep] + tail;
      forall k | 0 <= k < |r| ensures !IsUpper(r[k]) {
        if k > |parts[0]| {
          assert r[k] == tail[k - |parts[0]| - 1];
        }
      }
    }
  }

  // ---------------------------------------------------------------------
  // A spoken phrase: trigger, one space, words separated by single spaces

  /** The trigger, in any case, followed by one space and words of word
      characters separated by single spaces, is replaced by the folded
      identifier; scanning resumes at the first character that is neither a
      word character nor whitespace. */
  lemma {:induction false} FoldSpokenPhrase(style: Style, spoken: string, ws: seq<string>, rest: string)
    requires LowerStr(spoken) == Trigger(style)
    requires ws != [] && (forall i :: 0 <= i < |ws| ==> ws[i] != [] && AllWordChars(ws[i]))
    requires |ws| >= 2 || |ws[0]| >= 2
    requires rest == [] || !IsWordOrSpace(rest[0])
    ensures ApplyCasing(spoken + " " + JoinWith(' ', ws) + rest, style)
      == Fold(style, ws) + ApplyCasing(rest, style)
  {
    var trigger := Trigger(style);
    var j := JoinWith(' ', ws);
    assert LowerStr(trigger) == trigger;
    SameIgnoringCaseIffLowerEqual(spoken, trigger);
    JoinWithSpaceIsWordText(ws);
    JoinWithStartsWith(' ', ws);
    assert IsWordChar(ws[0][0]);
    var b := SecondWordChar(ws);
    MatchSpoken(spoken, trigger, j, rest, b);
    WordTextTokens(ws);
    WordsOfJoin(ws);
    ApplyCasingAtMatch(spoken + " " + j + rest, style);
  }

  /** A spoken command after text in which the trigger's first letter does
      not appear, in either case: the text is copied as it is and the
      command folds right after it.  The pattern asks for no word boundary
      before the trigger, so the text may end in a word character. */
  lemma {:induction false} CommandAfterText(style: Style, before: string, spoken: string, ws: seq<string>, rest: string)
    requires forall k :: 0 <= k < |before| ==> Lower(before[k]) != Trigger(style)[0]
    requires LowerStr(spoken) == Trigger(style)
    requires ws != [] && (forall i :: 0 <= i < |ws| ==> ws[i] != [] && AllWordChars(ws[i]))
    requires |ws| >= 2 || |ws[0]| >= 2
    requires rest == [] || !IsWordOrSpace(rest[0])
    ensures ApplyCasing(before + spoken + " " + JoinWith(' ', ws) + rest, style)
      == before + Fold(style, ws) + ApplyCasing(rest, style)
  {
    var command := spoken + " " + JoinWith(' ', ws) + rest;
    PrefixRegrouped(before, spoken, JoinWith(' ', ws), rest);
    CopiedBefore(before, command, style);
    FoldSpokenPhrase(style, spoken, ws, rest);
    AppendRegrouped(before, Fold(style, ws), ApplyCasing(rest, style));
  }

  lemma {:induction false} PrefixRegrouped(before: string, spoken: string, j: string, rest: string)
    ensures before + spoken + " " + j + rest == before + (spoken + " " + j + rest)
  {
  }

  lemma {:induction false} AppendRegrouped(a: string, b: string, c: string)
    ensures a + (b + c) == a + b + c
  {
  }

  /** Text in which the trigger's first letter does not appear, in either
      case, is copied in front of what the stage makes of the rest. */
  lemma {:induction false} CopiedBefore(before: string, after: string, style: Style)
    requires forall k :: 0 <= k < |before| ==> Lower(before[k]) != Trigger(style)[0]
    ensures ApplyCasing(before + after, style) == before + ApplyCasing(after, style)
  {
    var s := before + after;
    forall k | 0 <= k < |before| ensures Lower(s[k]) != Trigger(style)[0] {
      assert s[k] == before[k];
    }
    TriggerCannotStart(s, style, |before|);
    CasingCopiedUpTo(s, style, |before|);
    assert s[..|before|] == before && s[|before|..] == after;
  }

  /** The trigger as spoken, one space, a run `j` of word and whitespace
      characters that starts with a word character and holds a second one,
      and a stopping character: the match spans all of it and `j` is the
      group. */
  lemma {:induction false} MatchSpoken(spoken: string, trigger: string, j: string, rest: string, b: nat)
    requires SameIgnoringCase(spoken, trigger)
    requires 0 < b < |j| && IsWordChar(j[0]) && IsWordChar(j[b])
    requires forall k :: 0 <= k < |j| ==> IsWordOrSpace(j[k])
    requires rest == [] || !IsWordOrSpace(rest[0])
    ensures var s := spoken + " " + j + rest;
      |s| == |trigger| + 1 + |j| + |rest| &&
      MatchCasing(s, trigger) == Some(CasingMatch(|trigger| + 1 + |j|, j)) &&
      s[|trigger| + 1 + |j|..] == rest
  {
    var s := spoken + " " + j + rest;
    var t := |trigger|;
    var e := t + 1 + |j|;
    SpokenLayout(spoken, trigger, j, rest, b);
    MatchCasingOf(s, trigger, t + 1, e, t + 1 + b);
  }

  /** The facts about `spoken + " " + j + rest` that make the pattern match
      it, position by position. */
  lemma {:induction false} SpokenLayout(spoken: string, trigger: string, j: string, rest: string, b: nat)
    requires SameIgnoringCase(spoken, trigger)
    requires 0 < b < |j| && IsWordChar(j[0]) && IsWordChar(j[b])
    requires forall k :: 0 <= k < |j| ==> IsWordOrSpace(j[k])
    requires rest == [] || !IsWordOrSpace(rest[0])
    ensures var s := spoken + " " + j + rest; var t := |trigger|; var e := t + 1 + |j|;
      && |s| == e + |rest| && s[t + 1..e] == j && s[e..] == rest
      && StartsWithIgnoringCase(s, trigger)
      && (forall k :: t <= k < t + 1 ==> IsSpace(s[k]))
      && (forall k :: t + 1 <= k < e ==> IsWordOrSpace(s[k]))
      && !IsSpace(s[t + 1]) && IsWordChar(s[t + 1 + b])
      && (e == |s| || !IsWordOrSpace(s[e]))
  {
    var s := spoken + " " + j + rest;
    var t := |trigger|;
    var e := t + 1 + |j|;
    PhraseLayout(spoken, j, rest);
    StartsWithSpoken(s, spoken, trigger);
    forall k | t + 1 <= k < e ensures IsWordOrSpace(s[k]) {
      assert s[k] == j[k - t - 1];
    }
    assert s[t + 1] == j[0] && s[t + 1 + b] == j[b];
    assert e == |s| || s[e] == rest[0];
  }

  lemma {:induction false} StartsWithSpoken(s: string, spoken: string, trigger: string)
    requires SameIgnoringCase(spoken, trigger)
    requires |spoken| <= |s| && s[..|spoken|] == spoken
    ensures |spoken| == |trigger| && StartsWithIgnoringCase(s, trigger)
  {
  }

  lemma {:induction false} WordTextTokens(ws: seq<string>)
    requires forall i :: 0 <= i < |ws| ==> ws[i] != [] && AllWordChars(ws[i])
    ensures forall w :: w in ws ==> IsToken(w)
  {
    forall w | w in ws ensures IsToken(w) {
      var i :| 0 <= i < |ws| && ws[i] == w;
      assert forall k :: 0 <= k < |w| ==> IsWordChar(w[k]);
    }
  }

  /** Where the pattern matches, the stage emits the folded group and goes on
      after the match. */
  lemma {:induction false} ApplyCasingAtMatch(s: string, style: Style)
    requires MatchCasing(s, Trigger(style)).Some?
    ensures var m := MatchCasing(s, Trigger(style)).value;
      ApplyCasing(s, style) == Fold(style, Words(m.group)) + ApplyCasing(s[m.end..], style)
  {
  }

  /** Where the pieces of `p + " " + j + rest` sit. */
  lemma {:induction false} PhraseLayout(p: string, j: string, rest: string)
    ensures var s := p + " " + j + rest; var e := |p| + 1 + |j|;
      && |s| == e + |rest|
      && s[..|p|] == p && s[|p|] == ' '
      && (forall k :: |p| + 1 <= k < e ==> s[k] == j[k - |p| - 1])
      && s[|p| + 1..e] == j && s[e..] == rest
  {
  }

  /** A position after the first in the joined words that holds a word character. */
  lemma {:induction false} SecondWordChar(ws: seq<string>) returns (b: nat)
    requires ws != [] && (forall i :: 0 <= i < |ws| ==> ws[i] != [] && AllWordChars(ws[i]))
    requires |ws| >= 2 || |ws[0]| >= 2
    ensures 0 < b < |JoinWith(' ', ws)| && IsWordChar(JoinWith(' ', ws)[b])
  {
    var j := JoinWith(' ', ws);
    if |ws[0]| >= 2 {
      b := 1;
      if |ws| > 1 {
        assert j == ws[0] + ([' '] + JoinWith(' ', ws[1..]));
      }
      assert j[1] == ws[0][1];
    } else {
      b := 2;
      JoinWithStartsWith(' ', ws[1..]);
      assert j == ws[0] + [' '] + JoinWith(' ', ws[1..]);
      assert j[2] == ws[1][0];
    }
  }

  /** The regex matches when the text has the trigger, a whitespace run ending
      at g, a run of word and whitespace characters from g to e that holds
      two word characters, and a character at e that stops it. */
  lemma {:induction false} MatchCasingOf(s: string, trigger: string, g: nat, e: nat, b: nat)
    requires StartsWithIgnoringCase(s, trigger)
    requires |trigger| < g < b < e <= |s|
    requires forall k :: |trigger| <= k < g ==> IsSpace(s[k])
    requires forall k :: g <= k < e ==> IsWordOrSpace(s[k])
    requires !IsSpace(s[g]) && IsWordChar(s[b])
    requires e == |s| || !IsWordOrSpace(s[e])
    ensures MatchCasing(s, trigger) == Some(CasingMatch(e, s[g..e]))
  {
    SpaceRunEndAt(s, |trigger|, g);
    WordTextEndAt(s, g, e);
    AtLeastTwoWordChars(s, g, e, g, b);
  }

  lemma {:induction false} SpaceRunEndAt(s: string, i: nat, j: nat)
    requires i <= j <= |s|
    requires forall k :: i <= k < j ==> IsSpace(s[k])
    requires j == |s| || !IsSpace(s[j])
    ensures SpaceRunEnd(s, i) == j
    decreases j - i
  {
    if i < j {
      SpaceRunEndAt(s, i + 1, j);
    }
  }

  lemma {:induction false} WordTextEndAt(s: string, i: nat, j: nat)
    requires i <= j <= |s|
    requires forall k :: i <= k < j ==> IsWordOrSpace(s[k])
    requires j == |s| || !IsWordOrSpace(s[j])
    ensures WordTextEnd(s, i) == j
    decreases j - i
  {
    if i < j {
      WordTextEndAt(s, i + 1, j);
    }
  }

  lemma {:induction false} AtLeastTwoWordChars(s: string, i: nat, j: nat, a: nat, b: nat)
    requires i <= a < b < j <= |s|
    requires IsWordChar(s[a]) && IsWordChar(s[b])
    ensures WordCharsBetween(s, i, j) >= 2
    decreases j - i
  {
    if i < a {
      AtLeastTwoWordChars(s, i + 1, j, a, b);
    } else {
      AtLeastOneWordChar(s, i + 1, j, b);
    }
  }

  lemma {:induction false} AtLeastOneWordChar(s: string, i: nat, j: nat, b: nat)
    requires i <= b < j <= |s|
    requires IsWordChar(s[b])
    ensures WordCharsBetween(s, i, j) >= 1
    decreases j - i
  {
    if i < b {
      AtLeastOneWordChar(s, i + 1, j, b);
    }
  }

  lemma {:induction false} JoinWithStartsWith(sep: char, ws: seq<string>)
    requires ws != [] && ws[0] != []
    ensures JoinWith(sep, ws) != [] && JoinWith(sep, ws)[0] == ws[0][0]
  {
    if |ws| > 1 {
      assert JoinWith(sep, ws) == ws[0] + ([sep] + JoinWith(sep, ws[1..]));
    }
  }

  lemma {:induction false} JoinWithSpaceIsWordText(ws: seq<string>)
    requires forall i :: 0 <= i < |ws| ==> AllWordChars(ws[i])
    ensures forall k :: 0 <= k < |JoinWith(' ', ws)| ==> IsWordOrSpace(JoinWith(' ', ws)[k])
  {
    if |ws| > 1 {
      var tail := JoinWith(' ', ws[1..]);
      JoinWithSpaceIsWordText(ws[1..]);
      var r := ws[0] + [' '] + tail;
      forall k | 0 <= k < |r| ensures IsWordOrSpace(r[k]) {
        if k > |ws[0]| {
          assert r[k] == tail[k - |ws[0]| - 1];
        }
      }
    }
  }
}
