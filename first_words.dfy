/**
  First words of the phrases.  A phrase of the table can match inside a
  longer text only where a whole word of the text spells, ignoring case,
  the phrase's first word; knowing the first word of every entry tells
  which sentences the table leaves alone and where it can act.
*/
module FirstWords {
  import opened Text
  import opened Rules
  import opened Phrases
  import opened Postprocessor

  /** The first word of each entry's phrase, in table order. */
  const Heads: seq<string> := [
    "dot", "double", "triple", "not", "arrow", "slash", "dot", "dash", "underscore", "equals", "hash", "at", "ampersand", "pipe", "tilde", "backtick", "open", "close", "open", "close", "open", "close", "new", "tab"
  ]

  /** Entry j's phrase, lowered, starts with the word Heads[j]. */
  predicate HeadOf(j: nat)
    requires j < |CodingRules| && j < |Heads|
  {
    LowerStr(FirstWord(CodingRules[j].phrase)) == Heads[j]
  }

  /** Heads[j] is entry j's first word when the phrase starts with it and
      goes on, if at all, with a non-word character. */
  lemma {:induction false} HeadFromSpelling(j: nat)
    requires j < |CodingRules| && j < |Heads|
    requires var p, w := CodingRules[j].phrase, Heads[j];
      && |w| <= |p| && p[..|w|] == w && AllWordChars(w) && HasNoUpper(w)
      && (|w| == |p| || !IsWordChar(p[|w|]))
    ensures HeadOf(j)
  {
    FirstWordIs(CodingRules[j].phrase, Heads[j]);
    NoUpperIsLower(Heads[j]);
  }

  /** Each of the 24 entries, one by one. */
  lemma {:induction false} EveryHead(j: nat)
    requires j < |CodingRules|
    ensures |Heads| == |CodingRules| && HeadOf(j)
  {
    if j == 0 { DotEnvHead(); }
    else if j == 1 { DoubleEqualsHead(); }
    else if j == 2 { TripleEqualsHead(); }
    else if j == 3 { NotEqualsHead(); }
    else if j == 4 { ArrowHead(); }
    else if j == 5 { SlashHead(); }
    else if j == 6 { DotHead(); }
    else if j == 7 { DashHead(); }
    else if j == 8 { UnderscoreHead(); }
    else if j == 9 { EqualsHead(); }
    else if j == 10 { HashHead(); }
    else if j == 11 { AtSignHead(); }
    else if j == 12 { AmpersandHead(); }
    else if j == 13 { PipeHead(); }
    else if j == 14 { TildeHead(); }
    else if j == 15 { BacktickHead(); }
    else if j == 16 { OpenParenHead(); }
    else if j == 17 { CloseParenHead(); }
    else if j == 18 { OpenBracketHead(); }
    else if j == 19 { CloseBracketHead(); }
    else if j == 20 { OpenBraceHead(); }
    else if j == 21 { CloseBraceHead(); }
    else if j == 22 { NewLineHead(); }
    else { TabHead(); }
  }

  lemma DotEnvHead()
    ensures 0 < |Heads| && HeadOf(0)
  {
    HeadFromSpelling(0);
  }

  lemma DoubleEqualsHead()
    ensures 1 < |Heads| && HeadOf(1)
  {
    HeadFromSpelling(1);
  }

  lemma TripleEqualsHead()
    ensures 2 < |Heads| && HeadOf(2)
  {
    HeadFromSpelling(2);
  }

  lemma NotEqualsHead()
    ensures 3 < |Heads| && HeadOf(3)
  {
    HeadFromSpelling(3);
  }

  lemma ArrowHead()
    ensures 4 < |Heads| && HeadOf(4)
  {
    HeadFromSpelling(4);
  }

  lemma SlashHead()
    ensures 5 < |Heads| && HeadOf(5)
  {
    HeadFromSpelling(5);
  }

  lemma DotHead()
    ensures 6 < |Heads| && HeadOf(6)
  {
    HeadFromSpelling(6);
  }

  lemma DashHead()
    ensures 7 < |Heads| && HeadOf(7)
  {
    HeadFromSpelling(7);
  }

  lemma UnderscoreHead()
    ensures 8 < |Heads| && HeadOf(8)
  {
    HeadFromSpelling(8);
  }

  lemma EqualsHead()
    ensures 9 < |Heads| && HeadOf(9)
  {
    HeadFromSpelling(9);
  }

  lemma HashHead()
    ensures 10 < |Heads| && HeadOf(10)
  {
    HeadFromSpelling(10);
  }

  lemma AtSignHead()
    ensures 11 < |Heads| && HeadOf(11)
  {
    HeadFromSpelling(11);
  }

  lemma AmpersandHead()
    ensures 12 < |Heads| && HeadOf(12)
  {
    HeadFromSpelling(12);
  }

  lemma PipeHead()
    ensures 13 < |Heads| && HeadOf(13)
  {
    HeadFromSpelling(13);
  }

  lemma TildeHead()
    ensures 14 < |Heads| && HeadOf(14)
  {
    HeadFromSpelling(14);
  }

  lemma BacktickHead()
    ensures 15 < |Heads| && HeadOf(15)
  {
    HeadFromSpelling(15);
  }

  lemma OpenParenHead()
    ensures 16 < |Heads| && HeadOf(16)
  {
    HeadFromSpelling(16);
  }

  lemma CloseParenHead()
    ensures 17 < |Heads| && HeadOf(17)
  {
    HeadFromSpelling(17);
  }

  lemma OpenBracketHead()
    ensures 18 < |Heads| && HeadOf(18)
  {
    HeadFromSpelling(18);
  }

  lemma CloseBracketHead()
    ensures 19 < |Heads| && HeadOf(19)
  {
    HeadFromSpelling(19);
  }

  lemma OpenBraceHead()
    ensures 20 < |Heads| && HeadOf(20)
  {
    HeadFromSpelling(20);
  }

  lemma CloseBraceHead()
    ensures 21 < |Heads| && HeadOf(21)
  {
    HeadFromSpelling(21);
  }

  lemma NewLineHead()
    ensures 22 < |Heads| && HeadOf(22)
  {
    HeadFromSpelling(22);
  }

  lemma TabHead()
    ensures 23 < |Heads| && HeadOf(23)
  {
    HeadFromSpelling(23);
  }

  // ---------------------------------------------------------------------
  // The sorted table seen through first words

  /** Entry j's phrase begins with a word character, and its first word is
      Heads[j]. */
  lemma {:induction false} EntryHead(j: nat)
    requires j < |CodingRules|
    ensures j < |Heads| && IsWordChar(CodingRules[j].phrase[0]) && HeadOf(j)
  {
    EveryEntryRecognisable(j);
    EveryHead(j);
  }

  /** Each entry has what the table stage needs to replace it alone. */
  lemma {:induction false} EntryIsDistinctive(i: nat)
    requires i < |CodingRules|
    ensures DistinctiveEntry(CodingRules, i)
  {
    EveryEntryRecognisable(i);
  }

  /** A text none of whose words, ignoring case, is the first word of a
      phrase is matched by no phrase of the table... */
  /** Where entry j matches a text, its first word is a word of the text. */
  lemma {:induction false} MatchedHeadIsWord(s: string, ws: set<string>, j: nat, k: nat)
    requires j < |CodingRules| && WordsIn(s, ws)
    requires MatchesAt(s, CodingRules[j].phrase, k)
    ensures Heads[j] in ws
  {
    EntryHead(j);
    MatchedFirstWordIsWord(s, ws, CodingRules[j].phrase, k);
  }

  lemma {:induction false} OtherWordsUnmatched(s: string, ws: set<string>)
    requires WordsIn(s, ws)
    requires forall j :: 0 <= j < |Heads| ==> Heads[j] !in ws
    ensures Unmatched(s, CodingRules)
  {
    forall j | 0 <= j < |CodingRules| ensures forall k :: 0 <= k < |s| ==> !MatchesAt(s, CodingRules[j].phrase, k) {
      EntryHead(j);
      FirstWordElsewhere(s, CodingRules[j].phrase, ws);
    }
  }

  /** ... and so passes the table stage unchanged, however long it is. */
  lemma {:induction false} OtherWordsPassTable(s: string, ws: set<string>)
    requires WordsIn(s, ws)
    requires forall j :: 0 <= j < |Heads| ==> Heads[j] !in ws
    ensures ApplyRules(s, SortByPhraseLength(CodingRules)) == s
  {
    OtherWordsUnmatched(s, ws);
    TableWithoutMatch(s, CodingRules);
  }

  // ---------------------------------------------------------------------
  // postprocess on sentences

  /** A sentence holding no casing command whose words are none of the
      phrases' first words is what postprocess returns: no phrase is found
      in it. */
  lemma {:induction false} OtherWordsUnchanged(s: string, ws: set<string>)
    requires NoCasingCommand(s) && WordsIn(s, ws)
    requires forall j :: 0 <= j < |Heads| ==> Heads[j] !in ws
    ensures Postprocessed(s) == s
  {
    OtherWordsUnmatched(s, ws);
    NoMatchUnchanged(s);
  }

  /** A phrase said inside a sentence holding no casing command is replaced in
      place by its symbol, the rest of the sentence kept (t), when no entry
      at least as long matches anywhere else and the words of t are none of
      the phrases' first words. */
  lemma {:induction false} EntryInSentence(s: string, i: nat, m: nat, t: string, ws: set<string>)
    requires i < |CodingRules| && NoCasingCommand(s)
    requires SaidOnceAt(s, CodingRules, i, m, t)
    requires WordsIn(t, ws)
    requires forall j :: 0 <= j < |Heads| ==> Heads[j] !in ws
    ensures Postprocessed(s) == t
  {
    CommandlessCasingUnchanged(s);
    EntryIsDistinctive(i);
    OtherWordsUnmatched(t, ws);
    TableEntryInText(s, CodingRules, i, m, t);
  }
}
