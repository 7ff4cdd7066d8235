/**
  Every phrase of the coding-rule table, said on its own in any mix of
  cases, comes out of postprocess as its symbol.  Each entry is checked
  once: its phrase is lower case, begins and ends with a word character,
  lacks a letter of each casing command, and shares its length and first
  and last characters with no other phrase; and no phrase of the table
  occurs in its symbol.
*/
module Phrases {
  import opened Text
  import opened Casing
  import opened Rules
  import opened Postprocessor

  /** No character of `p` is `c`. */
  predicate Lacks(p: string, c: char) {
    forall k :: 0 <= k < |p| ==> p[k] != c
  }

  /** The phrase of entry i is lower case, begins and ends with a word
      character, and lacks a letter of "camel case" and one of
      "snake case". */
  predicate WellSpelled(i: nat)
    requires i < |CodingRules|
  {
    var p := CodingRules[i].phrase;
    && IsWordChar(p[0]) && IsWordChar(p[|p| - 1])
    && LowerStr(p) == p
    && (exists a :: 0 <= a < |Trigger(Camel)| && Lacks(p, Trigger(Camel)[a]))
    && (exists b :: 0 <= b < |Trigger(Snake)| && Lacks(p, Trigger(Snake)[b]))
  }

  /** No other phrase has the length and the first and last characters of the
      phrase of entry i. */
  predicate Unique(i: nat)
    requires i < |CodingRules|
  {
    forall j :: 0 <= j < |CodingRules| ==> j == i || !SameEnds(CodingRules[j].phrase, CodingRules[i].phrase)
  }

  /** What entry i needs in order to come out as its symbol when said alone. */
  predicate Recognisable(i: nat)
    requires i < |CodingRules|
  {
    WellSpelled(i) && Unique(i) && SymbolUntouched(CodingRules, CodingRules[i].symbol)
  }

  /** A recognisable entry, said alone in any case, becomes its symbol: the
      casing stages find no command in it and the table replaces it whole. */
  lemma {:induction false} RecognisableBecomesSymbol(s: string, i: nat)
    requires i < |CodingRules| && Recognisable(i)
    requires LowerStr(s) == CodingRules[i].phrase
    ensures Postprocessed(s) == CodingRules[i].symbol
  {
    var p := CodingRules[i].phrase;
    var a :| 0 <= a < |Trigger(Camel)| && Lacks(p, Trigger(Camel)[a]);
    var b :| 0 <= b < |Trigger(Snake)| && Lacks(p, Trigger(Snake)[b]);
    SameIgnoringCaseIffLowerEqual(s, p);
    forall k | 0 <= k < |s| ensures Lower(s[k]) != Trigger(Camel)[a] && Lower(s[k]) != Trigger(Snake)[b] {
      assert LowerStr(s)[k] == p[k];
    }
    CasingPassesBy(s, a, b);
    TableEntryBecomesSymbol(s, CodingRules, i);
  }

  /** The whole table: every phrase, said on its own in any mix of cases,
      becomes its symbol. */
  lemma {:induction false} SpokenPhraseBecomesSymbol(s: string, i: nat)
    requires i < |CodingRules|
    requires LowerStr(s) == CodingRules[i].phrase
    ensures Postprocessed(s) == CodingRules[i].symbol
  {
    EveryEntryRecognisable(i);
    RecognisableBecomesSymbol(s, i);
  }

  /** Each of the 24 entries, one by one. */
  lemma {:induction false} EveryEntryRecognisable(i: nat)
    requires i < |CodingRules|
    ensures Recognisable(i)
  {
    if i == 0 { DotEnvEntry(); }
    else if i == 1 { DoubleEqualsEntry(); }
    else if i == 2 { TripleEqualsEntry(); }
    else if i == 3 { NotEqualsEntry(); }
    else if i == 4 { ArrowEntry(); }
    else if i == 5 { SlashEntry(); }
    else if i == 6 { DotEntry(); }
    else if i == 7 { DashEntry(); }
    else if i == 8 { UnderscoreEntry(); }
    else if i == 9 { EqualsEntry(); }
    else if i == 10 { HashEntry(); }
    else if i == 11 { AtSignEntry(); }
    else if i == 12 { AmpersandEntry(); }
    else if i == 13 { PipeEntry(); }
    else if i == 14 { TildeEntry(); }
    else if i == 15 { BacktickEntry(); }
    else if i == 16 { OpenParenEntry(); }
    else if i == 17 { CloseParenEntry(); }
    else if i == 18 { OpenBracketEntry(); }
    else if i == 19 { CloseBracketEntry(); }
    else if i == 20 { OpenBraceEntry(); }
    else if i == 21 { CloseBraceEntry(); }
    else if i == 22 { NewLineEntry(); }
    else { TabEntry(); }
  }

  lemma DotEnvUnique()
    ensures Unique(0)
  {
    var p := CodingRules[0].phrase;
    forall j | 0 <= j < |CodingRules| && |CodingRules[j].phrase| == |p| ensures j == 0 || !SameEnds(CodingRules[j].phrase, p) {
    }
  }

  lemma DotEnvSpelling()
    ensures WellSpelled(0)
  {
    var p := CodingRules[0].phrase;
    NoUpperIsLower(p);
    assert Lacks(p, Trigger(Camel)[2]);
    assert Lacks(p, Trigger(Snake)[3]);
  }

  /** "dot env" becomes ".env": only "env" in it is a word, and no phrase
      spells it. */
  lemma DotEnvEntry()
    ensures Recognisable(0)
  {
    DotEnvUnique();
    DotEnvSpelling();
    var sym := CodingRules[0].symbol;
    forall j, k | 0 <= j < |CodingRules| && 0 <= k < |sym| ensures !MatchesAt(sym, CodingRules[j].phrase, k) {
      var p := CodingRules[j].phrase;
      if k != 1 {
        assert !IsBoundary(sym, k);
      } else if |p| != 3 {
        assert 1 + |p| <= |sym| ==> !IsBoundary(sym, 1 + |p|);
      } else {
        assert Lower(sym[1]) != Lower(p[0]);
      }
    }
  }

  lemma DoubleEqualsUnique()
    ensures Unique(1)
  {
    var p := CodingRules[1].phrase;
    forall j | 0 <= j < |CodingRules| && |CodingRules[j].phrase| == |p| ensures j == 1 || !SameEnds(CodingRules[j].phrase, p) {
    }
  }

  lemma DoubleEqualsSpelling()
    ensures WellSpelled(1)
  {
    var p := CodingRules[1].phrase;
    NoUpperIsLower(p);
    assert Lacks(p, Trigger(Camel)[2]);
    assert Lacks(p, Trigger(Snake)[3]);
  }

  /** "double equals" becomes "==". */
  lemma DoubleEqualsEntry()
    ensures Recognisable(1)
  {
    DoubleEqualsUnique();
    DoubleEqualsSpelling();
    WordlessSymbolUntouched(CodingRules, CodingRules[1].symbol);
  }

  lemma TripleEqualsUnique()
    ensures Unique(2)
  {
    var p := CodingRules[2].phrase;
    forall j | 0 <= j < |CodingRules| && |CodingRules[j].phrase| == |p| ensures j == 2 || !SameEnds(CodingRules[j].phrase, p) {
    }
  }

  lemma TripleEqualsSpelling()
    ensures WellSpelled(2)
  {
    var p := CodingRules[2].phrase;
    NoUpperIsLower(p);
    assert Lacks(p, Trigger(Camel)[2]);
    assert Lacks(p, Trigger(Snake)[3]);
  }

  /** "triple equals" becomes "===". */
  lemma TripleEqualsEntry()
    ensures Recognisable(2)
  {
    TripleEqualsUnique();
    TripleEqualsSpelling();
    WordlessSymbolUntouched(CodingRules, CodingRules[2].symbol);
  }

  lemma NotEqualsUnique()
    ensures Unique(3)
  {
    var p := CodingRules[3].phrase;
    forall j | 0 <= j < |CodingRules| && |CodingRules[j].phrase| == |p| ensures j == 3 || !SameEnds(CodingRules[j].phrase, p) {
    }
  }

  lemma NotEqualsSpelling()
    ensures WellSpelled(3)
  {
    var p := CodingRules[3].phrase;
    NoUpperIsLower(p);
    assert Lacks(p, Trigger(Camel)[2]);
    assert Lacks(p, Trigger(Snake)[3]);
  }

  /** "not equals" becomes "!=". */
  lemma NotEqualsEntry()
    ensures Recognisable(3)
  {
    NotEqualsUnique();
    NotEqualsSpelling();
    WordlessSymbolUntouched(CodingRules, CodingRules[3].symbol);
  }

  lemma ArrowUnique()
    ensures Unique(4)
  {
    var p := CodingRules[4].phrase;
    forall j | 0 <= j < |CodingRules| && |CodingRules[j].phrase| == |p| ensures j == 4 || !SameEnds(CodingRules[j].phrase, p) {
    }
  }

  lemma ArrowSpelling()
    ensures WellSpelled(4)
  {
    var p := CodingRules[4].phrase;
    NoUpperIsLower(p);
    assert Lacks(p, Trigger(Camel)[2]);
    assert Lacks(p, Trigger(Snake)[3]);
  }

  /** "arrow" becomes "=>". */
  lemma ArrowEntry()
    ensures Recognisable(4)
  {
    ArrowUnique();
    ArrowSpelling();
    WordlessSymbolUntouched(CodingRules, CodingRules[4].symbol);
  }

  lemma SlashUnique()
    ensures Unique(5)
  {
    var p := CodingRules[5].phrase;
    forall j | 0 <= j < |CodingRules| && |CodingRules[j].phrase| == |p| ensures j == 5 || !SameEnds(CodingRules[j].phrase, p) {
    }
  }

  lemma SlashSpelling()
    ensures WellSpelled(5)
  {
    var p := CodingRules[5].phrase;
    NoUpperIsLower(p);
    assert Lacks(p, Trigger(Camel)[2]);
    assert Lacks(p, Trigger(Snake)[3]);
  }

  /** "slash" becomes "/". */
  lemma SlashEntry()
    ensures Recognisable(5)
  {
    SlashUnique();
    SlashSpelling();
    WordlessSymbolUntouched(CodingRules, CodingRules[5].symbol);
  }

  lemma DotUnique()
    ensures Unique(6)
  {
    var p := CodingRules[6].phrase;
    forall j | 0 <= j < |CodingRules| && |CodingRules[j].phrase| == |p| ensures j == 6 || !SameEnds(CodingRules[j].phrase, p) {
    }
  }

  lemma DotSpelling()
    ensures WellSpelled(6)
  {
    var p := CodingRules[6].phrase;
    NoUpperIsLower(p);
    assert Lacks(p, Trigger(Camel)[2]);
    assert Lacks(p, Trigger(Snake)[3]);
  }

  /** "dot" becomes ".". */
  lemma DotEntry()
    ensures Recognisable(6)
  {
    DotUnique();
    DotSpelling();
    WordlessSymbolUntouched(CodingRules, CodingRules[6].symbol);
  }

  lemma DashUnique()
    ensures Unique(7)
  {
    var p := CodingRules[7].phrase;
    forall j | 0 <= j < |CodingRules| && |CodingRules[j].phrase| == |p| ensures j == 7 || !SameEnds(CodingRules[j].phrase, p) {
    }
  }

  lemma DashSpelling()
    ensures WellSpelled(7)
  {
    var p := CodingRules[7].phrase;
    NoUpperIsLower(p);
    assert Lacks(p, Trigger(Camel)[2]);
    assert Lacks(p, Trigger(Snake)[3]);
  }

  /** "dash" becomes "-". */
  lemma DashEntry()
    ensures Recognisable(7)
  {
    DashUnique();
    DashSpelling();
    WordlessSymbolUntouched(CodingRules, CodingRules[7].symbol);
  }

  lemma UnderscoreUnique()
    ensures Unique(8)
  {
    var p := CodingRules[8].phrase;
    forall j | 0 <= j < |CodingRules| && |CodingRules[j].phrase| == |p| ensures j == 8 || !SameEnds(CodingRules[j].phrase, p) {
    }
  }

  lemma UnderscoreSpelling()
    ensures WellSpelled(8)
  {
    var p := CodingRules[8].phrase;
    NoUpperIsLower(p);
    assert Lacks(p, Trigger(Camel)[2]);
    assert Lacks(p, Trigger(Snake)[3]);
  }

  /** "underscore" becomes "_": every phrase is longer than the symbol. */
  lemma UnderscoreEntry()
    ensures Recognisable(8)
  {
    UnderscoreUnique();
    UnderscoreSpelling();
    assert forall j :: 0 <= j < |CodingRules| ==> |CodingRules[j].phrase| > |CodingRules[8].symbol|;
  }

  lemma EqualsUnique()
    ensures Unique(9)
  {
    var p := CodingRules[9].phrase;
    forall j | 0 <= j < |CodingRules| && |CodingRules[j].phrase| == |p| ensures j == 9 || !SameEnds(CodingRules[j].phrase, p) {
    }
  }

  lemma EqualsSpelling()
    ensures WellSpelled(9)
  {
    var p := CodingRules[9].phrase;
    NoUpperIsLower(p);
    assert Lacks(p, Trigger(Camel)[2]);
    assert Lacks(p, Trigger(Snake)[3]);
  }

  /** "equals" becomes "=". */
  lemma EqualsEntry()
    ensures Recognisable(9)
  {
    EqualsUnique();
    EqualsSpelling();
    WordlessSymbolUntouched(CodingRules, CodingRules[9].symbol);
  }

  lemma HashUnique()
    ensures Unique(10)
  {
    var p := CodingRules[10].phrase;
    forall j | 0 <= j < |CodingRules| && |CodingRules[j].phrase| == |p| ensures j == 10 || !SameEnds(CodingRules[j].phrase, p) {
    }
  }

  lemma HashSpelling()
    ensures WellSpelled(10)
  {
    var p := CodingRules[10].phrase;
    NoUpperIsLower(p);
    assert Lacks(p, Trigger(Camel)[2]);
    assert Lacks(p, Trigger(Snake)[3]);
  }

  /** "hash" becomes "#". */
  lemma HashEntry()
    ensures Recognisable(10)
  {
    HashUnique();
    HashSpelling();
    WordlessSymbolUntouched(CodingRules, CodingRules[10].symbol);
  }

  lemma AtSignUnique()
    ensures Unique(11)
  {
    var p := CodingRules[11].phrase;
    forall j | 0 <= j < |CodingRules| && |CodingRules[j].phrase| == |p| ensures j == 11 || !SameEnds(CodingRules[j].phrase, p) {
    }
  }

  lemma AtSignSpelling()
    ensures WellSpelled(11)
  {
    var p := CodingRules[11].phrase;
    NoUpperIsLower(p);
    assert Lacks(p, Trigger(Camel)[2]);
    assert Lacks(p, Trigger(Snake)[3]);
  }

  /** "at sign" becomes "@". */
  lemma AtSignEntry()
    ensures Recognisable(11)
  {
    AtSignUnique();
    AtSignSpelling();
    WordlessSymbolUntouched(CodingRules, CodingRules[11].symbol);
  }

  lemma AmpersandUnique()
    ensures Unique(12)
  {
    var p := CodingRules[12].phrase;
    forall j | 0 <= j < |CodingRules| && |CodingRules[j].phrase| == |p| ensures j == 12 || !SameEnds(CodingRules[j].phrase, p) {
    }
  }

  lemma AmpersandSpelling()
    ensures WellSpelled(12)
  {
    var p := CodingRules[12].phrase;
    NoUpperIsLower(p);
    assert Lacks(p, Trigger(Camel)[0]);
    assert Lacks(p, Trigger(Snake)[3]);
  }

  /** "ampersand" becomes "&". */
  lemma AmpersandEntry()
    ensures Recognisable(12)
  {
    AmpersandUnique();
    AmpersandSpelling();
    WordlessSymbolUntouched(CodingRules, CodingRules[12].symbol);
  }

  lemma PipeUnique()
    ensures Unique(13)
  {
    var p := CodingRules[13].phrase;
    forall j | 0 <= j < |CodingRules| && |CodingRules[j].phrase| == |p| ensures j == 13 || !SameEnds(CodingRules[j].phrase, p) {
    }
  }

  lemma PipeSpelling()
    ensures WellSpelled(13)
  {
    var p := CodingRules[13].phrase;
    NoUpperIsLower(p);
    assert Lacks(p, Trigger(Camel)[2]);
    assert Lacks(p, Trigger(Snake)[3]);
  }

  /** "pipe" becomes "|". */
  lemma PipeEntry()
    ensures Recognisable(13)
  {
    PipeUnique();
    PipeSpelling();
    WordlessSymbolUntouched(CodingRules, CodingRules[13].symbol);
  }

  lemma TildeUnique()
    ensures Unique(14)
  {
    var p := CodingRules[14].phrase;
    forall j | 0 <= j < |CodingRules| && |CodingRules[j].phrase| == |p| ensures j == 14 || !SameEnds(CodingRules[j].phrase, p) {
    }
  }

  lemma TildeSpelling()
    ensures WellSpelled(14)
  {
    var p := CodingRules[14].phrase;
    NoUpperIsLower(p);
    assert Lacks(p, Trigger(Camel)[2]);
    assert Lacks(p, Trigger(Snake)[3]);
  }

  /** "tilde" becomes "~". */
  lemma TildeEntry()
    ensures Recognisable(14)
  {
    TildeUnique();
    TildeSpelling();
    WordlessSymbolUntouched(CodingRules, CodingRules[14].symbol);
  }

  lemma BacktickUnique()
    ensures Unique(15)
  {
    var p := CodingRules[15].phrase;
    forall j | 0 <= j < |CodingRules| && |CodingRules[j].phrase| == |p| ensures j == 15 || !SameEnds(CodingRules[j].phrase, p) {
    }
  }

  lemma BacktickSpelling()
    ensures WellSpelled(15)
  {
    var p := CodingRules[15].phrase;
    NoUpperIsLower(p);
    assert Lacks(p, Trigger(Camel)[2]);
    assert Lacks(p, Trigger(Snake)[0]);
  }

  /** "backtick" becomes "`". */
  lemma BacktickEntry()
    ensures Recognisable(15)
  {
    BacktickUnique();
    BacktickSpelling();
    WordlessSymbolUntouched(CodingRules, CodingRules[15].symbol);
  }

  lemma OpenParenUnique()
    ensures Unique(16)
  {
    var p := CodingRules[16].phrase;
    forall j | 0 <= j < |CodingRules| && |CodingRules[j].phrase| == |p| ensures j == 16 || !SameEnds(CodingRules[j].phrase, p) {
    }
  }

  lemma OpenParenSpelling()
    ensures WellSpelled(16)
  {
    var p := CodingRules[16].phrase;
    NoUpperIsLower(p);
    assert Lacks(p, Trigger(Camel)[2]);
    assert Lacks(p, Trigger(Snake)[3]);
  }

  /** "open paren" becomes "(". */
  lemma OpenParenEntry()
    ensures Recognisable(16)
  {
    OpenParenUnique();
    OpenParenSpelling();
    WordlessSymbolUntouched(CodingRules, CodingRules[16].symbol);
  }

  lemma CloseParenUnique()
    ensures Unique(17)
  {
    var p := CodingRules[17].phrase;
    forall j | 0 <= j < |CodingRules| && |CodingRules[j].phrase| == |p| ensures j == 17 || !SameEnds(CodingRules[j].phrase, p) {
    }
  }

  lemma CloseParenSpelling()
    ensures WellSpelled(17)
  {
    var p := CodingRules[17].phrase;
    NoUpperIsLower(p);
    assert Lacks(p, Trigger(Camel)[2]);
    assert Lacks(p, Trigger(Snake)[3]);
  }

  /** "close paren" becomes ")". */
  lemma CloseParenEntry()
    ensures Recognisable(17)
  {
    CloseParenUnique();
    CloseParenSpelling();
    WordlessSymbolUntouched(CodingRules, CodingRules[17].symbol);
  }

  lemma OpenBracketUnique()
    ensures Unique(18)
  {
    var p := CodingRules[18].phrase;
    forall j | 0 <= j < |CodingRules| && |CodingRules[j].phrase| == |p| ensures j == 18 || !SameEnds(CodingRules[j].phrase, p) {
    }
  }

  lemma OpenBracketSpelling()
    ensures WellSpelled(18)
  {
    var p := CodingRules[18].phrase;
    NoUpperIsLower(p);
    assert Lacks(p, Trigger(Camel)[2]);
    assert Lacks(p, Trigger(Snake)[0]);
  }

  /** "open bracket" becomes "[". */
  lemma OpenBracketEntry()
    ensures Recognisable(18)
  {
    OpenBracketUnique();
    OpenBracketSpelling();
    WordlessSymbolUntouched(CodingRules, CodingRules[18].symbol);
  }

  lemma CloseBracketUnique()
    ensures Unique(19)
  {
    var p := CodingRules[19].phrase;
    forall j | 0 <= j < |CodingRules| && |CodingRules[j].phrase| == |p| ensures j == 19 || !SameEnds(CodingRules[j].phrase, p) {
    }
  }

  lemma CloseBracketSpelling()
    ensures WellSpelled(19)
  {
    var p := CodingRules[19].phrase;
    NoUpperIsLower(p);
    assert Lacks(p, Trigger(Camel)[2]);
    assert Lacks(p, Trigger(Snake)[1]);
  }

  /** "close bracket" becomes "]". */
  lemma CloseBracketEntry()
    ensures Recognisable(19)
  {
    CloseBracketUnique();
    CloseBracketSpelling();
    WordlessSymbolUntouched(CodingRules, CodingRules[19].symbol);
  }

  lemma OpenBraceUnique()
    ensures Unique(20)
  {
    var p := CodingRules[20].phrase;
    forall j | 0 <= j < |CodingRules| && |CodingRules[j].phrase| == |p| ensures j == 20 || !SameEnds(CodingRules[j].phrase, p) {
    }
  }

  lemma OpenBraceSpelling()
    ensures WellSpelled(20)
  {
    var p := CodingRules[20].phrase;
    NoUpperIsLower(p);
    assert Lacks(p, Trigger(Camel)[2]);
    assert Lacks(p, Trigger(Snake)[3]);
  }

  /** "open brace" becomes "{". */
  lemma OpenBraceEntry()
    ensures Recognisable(20)
  {
    OpenBraceUnique();
    OpenBraceSpelling();
    WordlessSymbolUntouched(CodingRules, CodingRules[20].symbol);
  }

  lemma CloseBraceUnique()
    ensures Unique(21)
  {
    var p := CodingRules[21].phrase;
    forall j | 0 <= j < |CodingRules| && |CodingRules[j].phrase| == |p| ensures j == 21 || !SameEnds(CodingRules[j].phrase, p) {
    }
  }

  lemma CloseBraceSpelling()
    ensures WellSpelled(21)
  {
    var p := CodingRules[21].phrase;
    NoUpperIsLower(p);
    assert Lacks(p, Trigger(Camel)[2]);
    assert Lacks(p, Trigger(Snake)[3]);
  }

  /** "close brace" becomes "}". */
  lemma CloseBraceEntry()
    ensures Recognisable(21)
  {
    CloseBraceUnique();
    CloseBraceSpelling();
    WordlessSymbolUntouched(CodingRules, CodingRules[21].symbol);
  }

  lemma NewLineUnique()
    ensures Unique(22)
  {
    var p := CodingRules[22].phrase;
    forall j | 0 <= j < |CodingRules| && |CodingRules[j].phrase| == |p| ensures j == 22 || !SameEnds(CodingRules[j].phrase, p) {
    }
  }

  lemma NewLineSpelling()
    ensures WellSpelled(22)
  {
    var p := CodingRules[22].phrase;
    NoUpperIsLower(p);
    assert Lacks(p, Trigger(Camel)[2]);
    assert Lacks(p, Trigger(Snake)[3]);
  }

  /** "new line" becomes a line break. */
  lemma NewLineEntry()
    ensures Recognisable(22)
  {
    NewLineUnique();
    NewLineSpelling();
    WordlessSymbolUntouched(CodingRules, CodingRules[22].symbol);
  }

  lemma TabUnique()
    ensures Unique(23)
  {
    var p := CodingRules[23].phrase;
    forall j | 0 <= j < |CodingRules| && |CodingRules[j].phrase| == |p| ensures j == 23 || !SameEnds(CodingRules[j].phrase, p) {
    }
  }

  lemma TabSpelling()
    ensures WellSpelled(23)
  {
    var p := CodingRules[23].phrase;
    NoUpperIsLower(p);
    assert Lacks(p, Trigger(Camel)[2]);
    assert Lacks(p, Trigger(Snake)[3]);
  }

  /** "tab" becomes a tab character. */
  lemma TabEntry()
    ensures Recognisable(23)
  {
    TabUnique();
    TabSpelling();
    WordlessSymbolUntouched(CodingRules, CodingRules[23].symbol);
  }
}
