/**
  The spoken-phrase table of the transcript post-processor and the stage
  that applies it: every rule, longest phrase first, replaces each
  whole-word, case-insensitive occurrence of its phrase by its symbol.
*/
module Rules {
  import opened Text

  /** A spoken phrase; the pattern built from it never matches the empty string. */
  type Phrase = p: string | |p| > 0 witness "a"

  datatype Rule = Rule(phrase: Phrase, symbol: string)

  /** CODING_RULES, in the order the dictionary literal lists them. */
  const CodingRules: seq<Rule> := [
    Rule("dot env", ".env"),
    Rule("double equals", "=="),
    Rule("triple equals", "==="),
    Rule("not equals", "!="),
    Rule("arrow", "=>"),
    Rule("slash", "/"),
    Rule("dot", "."),
    Rule("dash", "-"),
    Rule("underscore", "_"),
    Rule("equals", "="),
    Rule("hash", "#"),
    Rule("at sign", "@"),
    Rule("ampersand", "&"),
    Rule("pipe", "|"),
    Rule("tilde", "~"),
    Rule("backtick", "`"),
    Rule("open paren", "("),
    Rule("close paren", ")"),
    Rule("open bracket", "["),
    Rule("close bracket", "]"),
    Rule("open brace", "{"),
    Rule("close brace", "}"),
    Rule("new line", "\n"),
    Rule("tab", "\t")
  ]

  // ---------------------------------------------------------------------
  // Ordering: sorted(..., key=len(phrase), reverse=True), which is stable

  /** Inserts `r` after every rule whose phrase is at least as long. */
  function InsertByLength(r: Rule, sorted: seq<Rule>): (res: seq<Rule>)
    ensures |res| == |sorted| + 1
  {
    if sorted == [] then [r]
    else if Key(r) > Key(sorted[0]) then [r] + sorted
    else [sorted[0]] + InsertByLength(r, sorted[1..])
  }

  /** The rules by descending phrase length, ties kept in table order. */
  function SortByPhraseLength(rules: seq<Rule>): (sorted: seq<Rule>)
    ensures |sorted| == |rules|
  {
    if rules == [] then []
    else InsertByLength(rules[|rules| - 1], SortByPhraseLength(rules[..|rules| - 1]))
  }

  predicate Descending(rules: seq<Rule>) {
    forall i, j :: 0 <= i < j < |rules| ==> Key(rules[i]) >= Key(rules[j])
  }

  /** The sort key: the length of the phrase. */
  function Key(r: Rule): nat { |r.phrase| }

  /** The rules whose phrase has length n, in their order. */
  function OfLength(rules: seq<Rule>, n: nat): seq<Rule> {
    if rules == [] then []
    else if Key(rules[0]) == n then [rules[0]] + OfLength(rules[1..], n)
    else OfLength(rules[1..], n)
  }

  lemma {:induction false} InsertKeepsMultiset(r: Rule, sorted: seq<Rule>)
    ensures multiset(InsertByLength(r, sorted)) == multiset(sorted) + multiset{r}
  {
    if sorted != [] && Key(r) <= Key(sorted[0]) {
      InsertKeepsMultiset(r, sorted[1..]);
      assert sorted == [sorted[0]] + sorted[1..];
    }
  }

  lemma {:induction false} InsertKeepsDescending(r: Rule, sorted: seq<Rule>)
    requires Descending(sorted)
    ensures Descending(InsertByLength(r, sorted))
  {
    if sorted != [] && Key(r) <= Key(sorted[0]) {
      var rest := InsertByLength(r, sorted[1..]);
      var res := [sorted[0]] + rest;
      InsertKeepsDescending(r, sorted[1..]);
      InsertStaysBelow(r, sorted[1..], Key(sorted[0]));
      forall i, j | 0 <= i < j < |res| ensures Key(res[i]) >= Key(res[j]) {
        assert res[j] == rest[j - 1];
        if i > 0 {
          assert res[i] == rest[i - 1];
        }
      }
    }
  }

  /** Inserting a rule no longer than n among rules no longer than n keeps
      every rule no longer than n. */
  lemma {:induction false} InsertStaysBelow(r: Rule, xs: seq<Rule>, n: nat)
    requires Key(r) <= n
    requires forall i :: 0 <= i < |xs| ==> Key(xs[i]) <= n
    ensures forall i :: 0 <= i < |InsertByLength(r, xs)| ==> Key(InsertByLength(r, xs)[i]) <= n
  {
    if xs != [] && Key(r) <= Key(xs[0]) {
      var rest := InsertByLength(r, xs[1..]);
      InsertStaysBelow(r, xs[1..], n);
      assert InsertByLength(r, xs) == [xs[0]] + rest;
    }
  }

  /** Insertion puts the new rule after every rule of its own length. */
  lemma {:induction false} InsertKeepsTies(r: Rule, sorted: seq<Rule>, n: nat)
    requires Descending(sorted)
    ensures OfLength(InsertByLength(r, sorted), n)
      == OfLength(sorted, n) + (if Key(r) == n then [r] else [])
  {
    if sorted == [] {
      OfLengthCons(r, [], n);
      assert [r] + [] == [r];
    } else if Key(r) > Key(sorted[0]) {
      OfLengthCons(r, sorted, n);
      if Key(r) == n {
        NoneOfLength(sorted, n);
      }
    } else {
      var rest := InsertByLength(r, sorted[1..]);
      InsertKeepsTies(r, sorted[1..], n);
      OfLengthCons(sorted[0], rest, n);
      OfLengthCons(sorted[0], sorted[1..], n);
      assert [sorted[0]] + sorted[1..] == sorted;
    }
  }

  lemma {:induction false} OfLengthCons(x: Rule, xs: seq<Rule>, n: nat)
    ensures OfLength([x] + xs, n) == if Key(x) == n then [x] + OfLength(xs, n) else OfLength(xs, n)
  {
    assert ([x] + xs)[1..] == xs;
  }

  lemma {:induction false} NoneOfLength(rules: seq<Rule>, n: nat)
    requires Descending(rules)
    requires rules != [] ==> Key(rules[0]) < n
    ensures OfLength(rules, n) == []
  {
    if rules != [] {
      NoneOfLength(rules[1..], n);
    }
  }

  lemma {:induction false} OfLengthAppend(a: seq<Rule>, b: seq<Rule>, n: nat)
    ensures OfLength(a + b, n) == OfLength(a, n) + OfLength(b, n)
  {
    if a == [] {
      assert a + b == b;
    } else {
      OfLengthAppend(a[1..], b, n);
      var ab := a + b;
      assert ab[0] == a[0];
      assert ab[1..] == a[1..] + b;
      if Key(a[0]) == n {
        var x, y := OfLength(a[1..], n), OfLength(b, n);
        assert [a[0]] + (x + y) == ([a[0]] + x) + y;
      }
    }
  }

  lemma {:induction false} OfLengthMember(xs: seq<Rule>, n: nat, x: Rule)
    requires x in OfLength(xs, n)
    ensures x in xs && Key(x) == n
  {
    if xs != [] && x !in OfLength(xs[1..], n) {
      assert x == xs[0];
    } else if xs != [] {
      OfLengthMember(xs[1..], n, x);
    }
  }

  /** The sort orders the rules by descending phrase length, keeps every
      rule, and leaves rules of equal length in their original order. */
  lemma {:induction false} SortIsStable(rules: seq<Rule>)
    ensures Descending(SortByPhraseLength(rules))
    ensures multiset(SortByPhraseLength(rules)) == multiset(rules)
    ensures forall n :: OfLength(SortByPhraseLength(rules), n) == OfLength(rules, n)
  {
    if rules != [] {
      var init := rules[..|rules| - 1];
      var last := rules[|rules| - 1];
      SortIsStable(init);
      InsertKeepsDescending(last, SortByPhraseLength(init));
      InsertKeepsMultiset(last, SortByPhraseLength(init));
      assert rules == init + [last];
      forall n ensures OfLength(SortByPhraseLength(rules), n) == OfLength(rules, n) {
        InsertKeepsTies(last, SortByPhraseLength(init), n);
        OfLengthAppend(init, [last], n);
        OfLengthCons(last, [], n);
        assert [last] + [] == [last];
      }
    }
  }

  /** There is only one such order: two descending arrangements that agree
      on the order of every length class are the same sequence. */
  lemma {:induction false} StableOrderIsUnique(a: seq<Rule>, b: seq<Rule>)
    requires Descending(a) && Descending(b)
    requires forall n :: OfLength(a, n) == OfLength(b, n)
    ensures a == b
    decreases |a|
  {
    if a == [] && b != [] {
      HeadIsOfItsLength(b);
    } else if a != [] && b == [] {
      HeadIsOfItsLength(a);
    } else if a != [] {
      assert a == [a[0]] + a[1..];
      assert b == [b[0]] + b[1..];
      var la := Key(a[0]);
      var lb := Key(b[0]);
      OfLengthCons(a[0], a[1..], la);
      OfLengthCons(b[0], b[1..], lb);
      OfLengthMember(b, la, a[0]);
      OfLengthMember(a, lb, b[0]);
      assert la == lb;
      assert OfLength(a, la)[0] == a[0] && OfLength(b, la)[0] == b[0];
      forall n ensures OfLength(a[1..], n) == OfLength(b[1..], n) {
        OfLengthCons(a[0], a[1..], n);
        OfLengthCons(b[0], b[1..], n);
        if n == la {
          assert OfLength(a[1..], n) == OfLength(a, n)[1..];
          assert OfLength(b[1..], n) == OfLength(b, n)[1..];
        }
      }
      StableOrderIsUnique(a[1..], b[1..]);
    }
  }

  lemma {:induction false} HeadIsOfItsLength(rules: seq<Rule>)
    requires rules != []
    ensures OfLength(rules, Key(rules[0])) != []
  {
  }

  /** So the sort is pinned down by what it promises: any arrangement of the
      rules that is descending and keeps ties in order is exactly it. */
  lemma {:induction false} SortIsTheStableOrder(rules: seq<Rule>, arranged: seq<Rule>)
    requires Descending(arranged)
    requires forall n :: OfLength(arranged, n) == OfLength(rules, n)
    ensures arranged == SortByPhraseLength(rules)
  {
    SortIsStable(rules);
    StableOrderIsUnique(arranged, SortByPhraseLength(rules));
  }

  // ---------------------------------------------------------------------
  // One rule: re.sub(r"\b" + re.escape(phrase) + r"\b", symbol, text, flags=re.IGNORECASE)

  /** `\b` at position i: exactly one of the characters either side of i is a
      word character (the ends of the text count as non-word). */
  predicate IsBoundary(s: string, i: nat)
    requires i <= |s|
  {
    (i > 0 && IsWordChar(s[i - 1])) != (i < |s| && IsWordChar(s[i]))
  }

  /** The rule's pattern matches at i: the phrase, ignoring case, with a word
      boundary on both sides. */
  predicate MatchesAt(s: string, p: string, i: nat) {
    && i + |p| <= |s|
    && IsBoundary(s, i)
    && IsBoundary(s, i + |p|)
    && SameIgnoringCase(s[i..i + |p|], p)
  }

  /** The re.sub scan from position i: a match is replaced and skipped whole,
      any other character is copied; matches are always looked for in the
      original text, so a replacement is never matched again in this pass. */
  function ReplaceFrom(s: string, p: Phrase, symbol: string, i: nat): string
    requires i <= |s|
    decreases |s| - i
  {
    if i == |s| then []
    else if MatchesAt(s, p, i) then symbol + ReplaceFrom(s, p, symbol, i + |p|)
    else [s[i]] + ReplaceFrom(s, p, symbol, i + 1)
  }

  /** One iteration of the loop in _apply_coding_rules. */
  function ReplaceWord(s: string, rule: Rule): string {
    ReplaceFrom(s, rule.phrase, rule.symbol, 0)
  }

  /** Where the pattern matches nowhere, re.sub returns the text unchanged. */
  lemma {:induction false} ReplaceWithoutMatch(s: string, rule: Rule)
    requires forall i :: 0 <= i < |s| ==> !MatchesAt(s, rule.phrase, i)
    ensures ReplaceWord(s, rule) == s
  {
    CopiedFrom(s, rule, 0);
  }

  lemma {:induction false} CopiedFrom(s: string, rule: Rule, i: nat)
    requires i <= |s|
    requires forall j :: i <= j < |s| ==> !MatchesAt(s, rule.phrase, j)
    ensures ReplaceFrom(s, rule.phrase, rule.symbol, i) == s[i..]
    decreases |s| - i
  {
    if i < |s| {
      CopiedFrom(s, rule, i + 1);
      assert s[i..] == [s[i]] + s[i + 1..];
    }
  }

  /** A text that is the phrase itself, in any case, becomes the symbol, as
      long as the phrase begins and ends with word characters (so that `\b`
      holds at both ends of the text). */
  lemma {:induction false} WholePhraseReplaced(s: string, rule: Rule)
    requires SameIgnoringCase(s, rule.phrase)
    requires IsWordChar(rule.phrase[0]) && IsWordChar(rule.phrase[|rule.phrase| - 1])
    ensures ReplaceWord(s, rule) == rule.symbol
  {
    var p := rule.phrase;
    SameIgnoringCaseIffLowerEqual(s, p);
    assert LowerStr(s)[0] == LowerStr(p)[0];
    assert LowerStr(s)[|s| - 1] == LowerStr(p)[|p| - 1];
    LowerKeepsWordChar(s[0]);
    LowerKeepsWordChar(p[0]);
    LowerKeepsWordChar(s[|s| - 1]);
    LowerKeepsWordChar(p[|p| - 1]);
    assert |s| == |p|;
    assert s[0..|p|] == s;
    assert IsBoundary(s, 0) && IsBoundary(s, |s|);
    assert MatchesAt(s, p, 0);
    assert ReplaceFrom(s, p, rule.symbol, |s|) == [];
    assert rule.symbol + [] == rule.symbol;
  }

  lemma {:induction false} LowerKeepsWordChar(c: char)
    ensures IsWordChar(Lower(c)) == IsWordChar(c)
  {
  }

  /** "dash" in "Dashboard": inside a single word there is no `\b` except at
      its two ends, so the pattern can only match the whole word, and a word
      that is not the phrase is left alone. */
  lemma {:induction false} WordNotPhraseUnmatched(w: string, p: Phrase)
    requires AllWordChars(w)
    requires !SameIgnoringCase(w, p)
    ensures forall i :: 0 <= i < |w| ==> !MatchesAt(w, p, i)
  {
    var n := |p|;
    forall i | 0 <= i < |w| ensures !MatchesAt(w, p, i) {
      if i > 0 {
        assert !IsBoundary(w, i);
      } else if n < |w| {
        assert !IsBoundary(w, n);
      } else if n == |w| {
        assert w[0..n] == w;
      }
    }
  }

  /** A text without word characters has no `\b` anywhere, so no rule can
      match in it. */
  lemma {:induction false} WordlessTextUnmatched(s: string, p: string)
    requires forall k :: 0 <= k < |s| ==> !IsWordChar(s[k])
    ensures forall i :: 0 <= i < |s| ==> !MatchesAt(s, p, i)
  {
    forall i | 0 <= i < |s| ensures !IsBoundary(s, i) {
      if i > 0 {
        assert !IsWordChar(s[i - 1]);
      }
    }
  }

  /** A match of a phrase that begins with a word character starts a whole
      word of the text, and that word spells the phrase's first word. */
  lemma {:induction false} MatchSpellsFirstWord(s: string, p: Phrase, i: nat)
    requires IsWordChar(p[0]) && MatchesAt(s, p, i)
    ensures WordAt(s, i, |FirstWord(p)|)
    ensures LowerStr(s[i..i + |FirstWord(p)|]) == LowerStr(FirstWord(p))
  {
    var fw := FirstWord(p);
    var n := |fw|;
    var m := s[i..i + |p|];
    SameIgnoringCaseIffLowerEqual(m, p);
    forall k | 0 <= k < |p| ensures Lower(s[i + k]) == Lower(p[k]) && IsWordChar(s[i + k]) == IsWordChar(p[k]) {
      assert LowerStr(m)[k] == LowerStr(p)[k];
      LowerKeepsWordChar(s[i + k]);
      LowerKeepsWordChar(p[k]);
    }
    assert IsWordChar(s[i + 0]);
    assert 0 < n;
    forall k | i <= k < i + n ensures IsWordChar(s[k]) {
      assert fw[k - i] == p[k - i];
      assert IsWordChar(s[i + (k - i)]);
    }
    if n < |p| {
      assert !IsWordChar(s[i + n]);
    } else {
      assert fw[n - 1] == p[n - 1];
      assert IsWordChar(s[i + (n - 1)]);
    }
    forall k | 0 <= k < n ensures LowerStr(s[i..i + n])[k] == LowerStr(fw)[k] {
      assert fw[k] == p[k];
      assert Lower(s[i + k]) == Lower(p[k]);
    }
  }

  /** Phrases spelled the same match at the same places. */
  lemma {:induction false} SameSpellingMatches(s: string, p: Phrase, q: Phrase, m: nat)
    requires SameIgnoringCase(p, q) && MatchesAt(s, q, m)
    ensures MatchesAt(s, p, m)
  {
    SameIgnoringCaseIffLowerEqual(p, q);
    SameIgnoringCaseIffLowerEqual(s[m..m + |q|], q);
    SameIgnoringCaseIffLowerEqual(s[m..m + |q|], p);
  }

  /** A phrase spelled exactly, with a boundary at each end, matches. */
  lemma {:induction false} ExactMatch(s: string, p: Phrase, i: nat)
    requires i + |p| <= |s| && s[i..i + |p|] == p
    requires IsBoundary(s, i) && IsBoundary(s, i + |p|)
    ensures MatchesAt(s, p, i)
  {
    SameIgnoringCaseIffLowerEqual(p, p);
  }

  /** Copying up to the next match. */
  lemma {:induction false} CopiedUpTo(s: string, rule: Rule, i: nat, m: nat)
    requires i <= m <= |s|
    requires forall j :: i <= j < m ==> !MatchesAt(s, rule.phrase, j)
    ensures ReplaceFrom(s, rule.phrase, rule.symbol, i) == s[i..m] + ReplaceFrom(s, rule.phrase, rule.symbol, m)
    decreases m - i
  {
    if i < m {
      CopiedUpTo(s, rule, i + 1, m);
      assert !MatchesAt(s, rule.phrase, i);
      assert ReplaceFrom(s, rule.phrase, rule.symbol, i) == [s[i]] + ReplaceFrom(s, rule.phrase, rule.symbol, i + 1);
      assert s[i..m] == [s[i]] + s[i + 1..m];
    }
  }

  /** A phrase matching once, at m, is replaced in place: the text before and
      after it is kept as it is. */
  lemma {:induction false} ReplaceSingleMatch(s: string, rule: Rule, m: nat)
    requires MatchesAt(s, rule.phrase, m)
    requires forall i :: 0 <= i < |s| && MatchesAt(s, rule.phrase, i) ==> i == m
    ensures ReplaceWord(s, rule) == s[..m] + rule.symbol + s[m + |rule.phrase|..]
  {
    var e := m + |rule.phrase|;
    CopiedUpTo(s, rule, 0, m);
    CopiedFrom(s, rule, e);
    assert ReplaceFrom(s, rule.phrase, rule.symbol, m) == rule.symbol + ReplaceFrom(s, rule.phrase, rule.symbol, e);
    assert s[0..m] == s[..m];
  }

  // ---------------------------------------------------------------------
  // The whole stage: every rule in turn, each on the previous one's output

  /** The rules applied one after another, first rule first. */
  function ApplyRules(text: string, rules: seq<Rule>): string
    decreases |rules|
  {
    if rules == [] then text else ApplyRules(ReplaceWord(text, rules[0]), rules[1..])
  }

  /** _apply_coding_rules: the loop over the sorted table. */
  method ApplyCodingRules(text: string) returns (result: string)
    ensures result == ApplyRules(text, SortByPhraseLength(CodingRules))
  {
    var ordered := SortByPhraseLength(CodingRules);
    result := text;
    var i := 0;
    while i < |ordered|
      invariant 0 <= i <= |ordered|
      invariant ApplyRules(result, ordered[i..]) == ApplyRules(text, ordered)
    {
      assert ordered[i..][1..] == ordered[i + 1..];
      result := ReplaceWord(result, ordered[i]);
      i := i + 1;
    }
    assert ordered[i..] == [];
  }

  /** Text that no rule matches comes out unchanged. */
  lemma {:induction false} ApplyRulesWithoutMatch(s: string, rules: seq<Rule>)
    requires forall r, i :: r in rules && 0 <= i < |s| ==> !MatchesAt(s, r.phrase, i)
    ensures ApplyRules(s, rules) == s
  {
    if rules != [] {
      assert rules[0] in rules;
      ReplaceWithoutMatch(s, rules[0]);
      ApplyRulesWithoutMatch(s, rules[1..]);
    }
  }

  /** Text without word characters (every symbol but ".env" and "_") is a
      fixed point of the stage. */
  lemma {:induction false} WordlessTextFixed(s: string, rules: seq<Rule>)
    requires forall k :: 0 <= k < |s| ==> !IsWordChar(s[k])
    ensures ApplyRules(s, rules) == s
  {
    forall r | r in rules ensures forall i :: 0 <= i < |s| ==> !MatchesAt(s, r.phrase, i) {
      WordlessTextUnmatched(s, r.phrase);
    }
    ApplyRulesWithoutMatch(s, rules);
  }

  /** Longest phrase first: an utterance that is exactly one phrase, in any
      case, becomes that phrase's symbol even when a shorter phrase (such as
      "equals" inside "double equals") would also match part of it. */
  lemma {:induction false} PhraseBecomesSymbol(s: string, rules: seq<Rule>, rule: Rule)
    requires Descending(rules) && rule in rules
    requires forall r :: r in rules && SameIgnoringCase(r.phrase, rule.phrase) ==> r.symbol == rule.symbol
    requires forall r, i :: r in rules && 0 <= i < |rule.symbol| ==> !MatchesAt(rule.symbol, r.phrase, i)
    requires IsWordChar(rule.phrase[0]) && IsWordChar(rule.phrase[|rule.phrase| - 1])
    requires SameIgnoringCase(s, rule.phrase)
    ensures ApplyRules(s, rules) == rule.symbol
  {
    var r := rules[0];
    assert r in rules;
    SameIgnoringCaseIffLowerEqual(s, rule.phrase);
    SameIgnoringCaseIffLowerEqual(s, r.phrase);
    SameIgnoringCaseIffLowerEqual(r.phrase, rule.phrase);
    if SameIgnoringCase(s, r.phrase) {
      var n := |rule.phrase| - 1;
      assert LowerStr(r.phrase)[0] == LowerStr(rule.phrase)[0];
      assert LowerStr(r.phrase)[n] == LowerStr(rule.phrase)[n];
      LowerKeepsWordChar(r.phrase[0]);
      LowerKeepsWordChar(rule.phrase[0]);
      LowerKeepsWordChar(r.phrase[n]);
      LowerKeepsWordChar(rule.phrase[n]);
      WholePhraseReplaced(s, r);
      ApplyRulesWithoutMatch(rule.symbol, rules[1..]);
    } else {
      forall i | 0 <= i < |s| ensures !MatchesAt(s, r.phrase, i) {
        if i + |r.phrase| <= |s| {
          assert s[i..i + |r.phrase|] == s;
        }
      }
      ReplaceWithoutMatch(s, r);
      var k :| 0 <= k < |rules| && rules[k] == rule;
      assert rules[1..][k - 1] == rule;
      PhraseBecomesSymbol(s, rules[1..], rule);
    }
  }

  /** Text none of whose words spells, ignoring case, the first word of a
      phrase that begins with a word character is matched by no such phrase. */
  lemma {:induction false} NoMatchAmongOtherWords(s: string, rules: seq<Rule>, ws: set<string>)
    requires WordsIn(s, ws)
    requires forall r :: r in rules ==> IsWordChar(r.phrase[0]) && LowerStr(FirstWord(r.phrase)) !in ws
    ensures forall r, i :: r in rules && 0 <= i < |s| ==> !MatchesAt(s, r.phrase, i)
  {
    forall r | r in rules ensures forall i :: 0 <= i < |s| ==> !MatchesAt(s, r.phrase, i) {
      FirstWordElsewhere(s, r.phrase, ws);
    }
  }

  /** Where a phrase beginning with a word character matches a text, its
      first word, lowered, is a word of the text. */
  lemma {:induction false} MatchedFirstWordIsWord(s: string, ws: set<string>, p: Phrase, k: nat)
    requires WordsIn(s, ws) && IsWordChar(p[0]) && MatchesAt(s, p, k)
    ensures LowerStr(FirstWord(p)) in ws
  {
    MatchSpellsFirstWord(s, p, k);
    var n := |FirstWord(p)|;
    assert 0 < n;
    assert LowerStr(s[k..k + n]) in ws;
  }

  /** A phrase beginning with a word character whose first word is none of
      the words of a text matches nowhere in it. */
  lemma {:induction false} FirstWordElsewhere(s: string, p: Phrase, ws: set<string>)
    requires WordsIn(s, ws)
    requires IsWordChar(p[0]) && LowerStr(FirstWord(p)) !in ws
    ensures forall i :: 0 <= i < |s| ==> !MatchesAt(s, p, i)
  {
    forall i | 0 <= i < |s| ensures !MatchesAt(s, p, i) {
      if MatchesAt(s, p, i) {
        MatchSpellsFirstWord(s, p, i);
        assert false;
      }
    }
  }

  /** Text none of whose words spells, ignoring case, the first word of a
      phrase passes the stage unchanged, whatever else it holds: a phrase
      that merely begins like one of its words ("dash" in "Dashboard") does
      not match inside it. */
  lemma {:induction false} TextOfOtherWordsUnchanged(s: string, rules: seq<Rule>, ws: set<string>)
    requires WordsIn(s, ws)
    requires forall r :: r in rules ==> IsWordChar(r.phrase[0]) && LowerStr(FirstWord(r.phrase)) !in ws
    ensures ApplyRules(s, rules) == s
  {
    NoMatchAmongOtherWords(s, rules, ws);
    ApplyRulesWithoutMatch(s, rules);
  }

  /** Longest phrase first, inside a longer text: when the only match of any
      phrase at least as long as `rule`'s is `rule`'s own (or a phrase
      spelled the same) at m, and no phrase at most as long matches in the
      text once that occurrence is replaced, the stage replaces exactly that
      occurrence and keeps the rest of the text. */
  lemma {:induction false} PhraseInTextBecomesSymbol(s: string, rules: seq<Rule>, rule: Rule, m: nat)
    requires Descending(rules) && rule in rules
    requires forall r :: r in rules && SameIgnoringCase(r.phrase, rule.phrase) ==> r.symbol == rule.symbol
    requires MatchesAt(s, rule.phrase, m)
    requires forall r, i :: r in rules && Key(r) >= Key(rule) && 0 <= i < |s| && MatchesAt(s, r.phrase, i) ==>
      i == m && SameIgnoringCase(r.phrase, rule.phrase)
    requires var t := s[..m] + rule.symbol + s[m + |rule.phrase|..];
      forall r, i :: r in rules && Key(r) <= Key(rule) && 0 <= i < |t| ==> !MatchesAt(t, r.phrase, i)
    ensures ApplyRules(s, rules) == s[..m] + rule.symbol + s[m + |rule.phrase|..]
  {
    var r := rules[0];
    assert r in rules;
    var k :| 0 <= k < |rules| && rules[k] == rule;
    assert Key(r) >= Key(rule);
    if SameIgnoringCase(r.phrase, rule.phrase) {
      MatchedByFirst(s, rules, rule, m);
    } else {
      ReplaceWithoutMatch(s, r);
      SameIgnoringCaseIffLowerEqual(rule.phrase, rule.phrase);
      assert rules[1..][k - 1] == rule;
      PhraseInTextBecomesSymbol(s, rules[1..], rule, m);
    }
  }

  /** The first rule is spelled like `rule` and matches only at m: it
      replaces that occurrence, and no later rule finds anything. */
  lemma {:induction false} MatchedByFirst(s: string, rules: seq<Rule>, rule: Rule, m: nat)
    requires Descending(rules) && rules != []
    requires SameIgnoringCase(rules[0].phrase, rule.phrase) && rules[0].symbol == rule.symbol
    requires MatchesAt(s, rule.phrase, m)
    requires forall i :: 0 <= i < |s| && MatchesAt(s, rules[0].phrase, i) ==> i == m
    requires var t := s[..m] + rule.symbol + s[m + |rule.phrase|..];
      forall r, i :: r in rules && Key(r) <= Key(rule) && 0 <= i < |t| ==> !MatchesAt(t, r.phrase, i)
    ensures ApplyRules(s, rules) == s[..m] + rule.symbol + s[m + |rule.phrase|..]
  {
    var t := s[..m] + rule.symbol + s[m + |rule.phrase|..];
    var r := rules[0];
    SameSpellingMatches(s, r.phrase, rule.phrase, m);
    ReplaceSingleMatch(s, r, m);
    SameIgnoringCaseIffLowerEqual(r.phrase, rule.phrase);
    forall r', i | r' in rules[1..] && 0 <= i < |t| ensures !MatchesAt(t, r'.phrase, i) {
      LaterIsNoLonger(rules, r');
    }
    ApplyRulesWithoutMatch(t, rules[1..]);
  }

  /** In a descending list, no later rule is longer than the first. */
  lemma {:induction false} LaterIsNoLonger(rules: seq<Rule>, r: Rule)
    requires Descending(rules) && rules != [] && r in rules[1..]
    ensures Key(r) <= Key(rules[0])
  {
    var j :| 0 <= j < |rules[1..]| && rules[1..][j] == r;
    assert rules[j + 1] == r;
  }

  // ---------------------------------------------------------------------
  // The stage on a whole table, sorted as the loop sorts it

  /** Sorting only reorders: every rule of the sorted table is an entry of
      the table. */
  lemma {:induction false} SortedRuleIsEntry(table: seq<Rule>, r: Rule) returns (j: nat)
    requires r in SortByPhraseLength(table)
    ensures j < |table| && table[j] == r
  {
    SortIsStable(table);
    assert r in multiset(table);
    j :| 0 <= j < |table| && table[j] == r;
  }

  /** No phrase of the table matches anywhere in `s`. */
  predicate Unmatched(s: string, table: seq<Rule>) {
    forall j, k :: 0 <= j < |table| && 0 <= k < |s| ==> !MatchesAt(s, table[j].phrase, k)
  }

  /** Entry i's phrase matches `s` at m, no entry at least as long matches
      anywhere else, and `t` is `s` with that occurrence replaced by the
      symbol. */
  predicate SaidOnceAt(s: string, table: seq<Rule>, i: nat, m: nat, t: string)
    requires i < |table|
  {
    && MatchesAt(s, table[i].phrase, m)
    && (forall j, k :: 0 <= j < |table| && Key(table[j]) >= Key(table[i]) && 0 <= k < |s| && MatchesAt(s, table[j].phrase, k) ==>
         j == i && k == m)
    && t == s[..m] + table[i].symbol + s[m + |table[i].phrase|..]
  }

  /** A text in which no phrase of the table matches passes the sorted table
      unchanged. */
  lemma {:induction false} TableWithoutMatch(s: string, table: seq<Rule>)
    requires Unmatched(s, table)
    ensures ApplyRules(s, SortByPhraseLength(table)) == s
  {
    var sorted := SortByPhraseLength(table);
    forall r, k | r in sorted && 0 <= k < |s| ensures !MatchesAt(s, r.phrase, k) {
      var j := SortedRuleIsEntry(table, r);
    }
    ApplyRulesWithoutMatch(s, sorted);
  }

  /** A single word that no phrase of the table spells, ignoring case, comes
      out of the stage unchanged. */
  lemma {:induction false} TableLeavesOtherWords(w: string, table: seq<Rule>)
    requires AllWordChars(w)
    requires forall j :: 0 <= j < |table| ==> !SameIgnoringCase(w, table[j].phrase)
    ensures ApplyRules(w, SortByPhraseLength(table)) == w
  {
    var sorted := SortByPhraseLength(table);
    SortIsStable(table);
    forall r | r in sorted ensures forall i :: 0 <= i < |w| ==> !MatchesAt(w, r.phrase, i) {
      assert r in multiset(table);
      var j :| 0 <= j < |table| && table[j] == r;
      WordNotPhraseUnmatched(w, r.phrase);
    }
    ApplyRulesWithoutMatch(w, sorted);
  }

  /** What makes entry i of a table come out as its symbol when said on its
      own: its phrase begins and ends with word characters, no phrase of the
      table occurs in its symbol, and no other entry has a phrase of the same
      length with the same first and last characters. */
  predicate DistinctiveEntry(table: seq<Rule>, i: nat)
    requires i < |table|
  {
    var p := table[i].phrase;
    && IsWordChar(p[0]) && IsWordChar(p[|p| - 1])
    && SymbolUntouched(table, table[i].symbol)
    && (forall j :: 0 <= j < |table| ==> j == i || !SameEnds(table[j].phrase, p))
  }

  /** No phrase of the table matches anywhere in `symbol`. */
  predicate SymbolUntouched(table: seq<Rule>, symbol: string) {
    forall j, k :: 0 <= j < |table| && 0 <= k < |symbol| ==> !MatchesAt(symbol, table[j].phrase, k)
  }

  /** Same length, and the same first and last characters ignoring case. */
  predicate SameEnds(a: Phrase, b: Phrase) {
    |a| == |b| && Lower(a[0]) == Lower(b[0]) && Lower(a[|a| - 1]) == Lower(b[|b| - 1])
  }

  /** A symbol without word characters has no `\b` for a phrase to match at. */
  lemma {:induction false} WordlessSymbolUntouched(table: seq<Rule>, symbol: string)
    requires forall k :: 0 <= k < |symbol| ==> !IsWordChar(symbol[k])
    ensures SymbolUntouched(table, symbol)
  {
    forall j | 0 <= j < |table| ensures forall k :: 0 <= k < |symbol| ==> !MatchesAt(symbol, table[j].phrase, k) {
      WordlessTextUnmatched(symbol, table[j].phrase);
    }
  }

  /** In a distinctive entry, any rule of the table whose phrase is the
      entry's phrase up to case is the entry itself as far as the symbol goes. */
  lemma {:induction false} SameSpellingSameSymbol(table: seq<Rule>, i: nat, r: Rule)
    requires i < |table| && DistinctiveEntry(table, i)
    requires r in table && SameIgnoringCase(r.phrase, table[i].phrase)
    ensures r.symbol == table[i].symbol
  {
    var rule := table[i];
    var j :| 0 <= j < |table| && table[j] == r;
    SameIgnoringCaseIffLowerEqual(r.phrase, rule.phrase);
    var n := |r.phrase| - 1;
    assert LowerStr(r.phrase)[0] == LowerStr(rule.phrase)[0];
    assert LowerStr(r.phrase)[n] == LowerStr(rule.phrase)[n];
  }

  /** A distinctive entry, said on its own in any case, becomes its symbol:
      every longer phrase is tried first and fails, and no shorter phrase
      then finds anything in the symbol. */
  lemma {:induction false} TableEntryBecomesSymbol(s: string, table: seq<Rule>, i: nat)
    requires i < |table| && DistinctiveEntry(table, i)
    requires SameIgnoringCase(s, table[i].phrase)
    ensures ApplyRules(s, SortByPhraseLength(table)) == table[i].symbol
  {
    var sorted := SortByPhraseLength(table);
    var rule := table[i];
    SortIsStable(table);
    assert rule in multiset(sorted);
    forall r | r in sorted && SameIgnoringCase(r.phrase, rule.phrase) ensures r.symbol == rule.symbol {
      assert r in multiset(table);
      SameSpellingSameSymbol(table, i, r);
    }
    forall r, k | r in sorted && 0 <= k < |rule.symbol| ensures !MatchesAt(rule.symbol, r.phrase, k) {
      assert r in multiset(table);
      var j :| 0 <= j < |table| && table[j] == r;
    }
    PhraseBecomesSymbol(s, sorted, rule);
  }

  /** An entry of a table said inside a longer text is replaced in place,
      the rest of the text kept: when no entry at least as long matches the
      text anywhere but that entry at m, and no entry matches the text once
      the occurrence is replaced. */
  lemma {:induction false} TableEntryInText(s: string, table: seq<Rule>, i: nat, m: nat, t: string)
    requires i < |table| && DistinctiveEntry(table, i)
    requires SaidOnceAt(s, table, i, m, t) && Unmatched(t, table)
    ensures ApplyRules(s, SortByPhraseLength(table)) == t
  {
    var sorted := SortByPhraseLength(table);
    var rule := table[i];
    SortIsStable(table);
    assert rule in multiset(sorted);
    forall r | r in sorted && SameIgnoringCase(r.phrase, rule.phrase) ensures r.symbol == rule.symbol {
      var j := SortedRuleIsEntry(table, r);
      SameSpellingSameSymbol(table, i, r);
    }
    SameIgnoringCaseIffLowerEqual(rule.phrase, rule.phrase);
    forall r, k | r in sorted && Key(r) >= Key(rule) && 0 <= k < |s| && MatchesAt(s, r.phrase, k)
      ensures k == m && SameIgnoringCase(r.phrase, rule.phrase)
    {
      var j := SortedRuleIsEntry(table, r);
    }
    forall r, k | r in sorted && Key(r) <= Key(rule) && 0 <= k < |t| ensures !MatchesAt(t, r.phrase, k) {
      var j := SortedRuleIsEntry(table, r);
    }
    PhraseInTextBecomesSymbol(s, sorted, rule, m);
  }
}
