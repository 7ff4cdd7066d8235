/**
  Worked cases of postprocess: spoken operators, words that only contain a
  phrase, the casing commands with their greedy word run, and the order of
  the stages.
*/
module Scenarios {
  import opened Text
  import opened Casing
  import opened Rules
  import opened Postprocessor
  import opened Phrases
  import opened FirstWords

  /** `s` spells the lower-case text `p` in some mix of cases. */
  lemma {:induction false} SpelledAs(s: string, p: string)
    requires LowerStr(s) == p && LowerStr(p) == p
    ensures SameIgnoringCase(s, p)
    ensures forall k :: 0 <= k < |s| ==> Lower(s[k]) == p[k]
  {
    SameIgnoringCaseIffLowerEqual(s, p);
  }

  // ---------------------------------------------------------------------
  // Spoken operators

  /** "double equals", in any case, becomes "==": "equals" alone is shorter
      and is tried only after the longer phrase has been replaced. */
  lemma {:induction false} SpokenDoubleEquals(s: string)
    requires LowerStr(s) == "double equals"
    ensures Postprocessed(s) == "=="
  {
    SpokenPhraseBecomesSymbol(s, 1);
  }

  /** Its output is final: post-processing "==" again changes nothing. */
  lemma {:induction false} DoubleEqualsIsFinal(s: string)
    requires LowerStr(s) == "double equals"
    ensures Postprocessed(Postprocessed(s)) == "=="
  {
    SpokenDoubleEquals(s);
    DoubleEqualsSymbolFixed();
  }

  /** "==" passes postprocess unchanged. */
  lemma {:induction false} DoubleEqualsSymbolFixed()
    ensures Postprocessed("==") == "=="
  {
    WordlessTextUnchanged("==");
  }

  /** "not equals", in any case, becomes "!=" and not "not =". */
  lemma {:induction false} SpokenNotEquals(s: string)
    requires LowerStr(s) == "not equals"
    ensures Postprocessed(s) == "!="
  {
    SpokenPhraseBecomesSymbol(s, 3);
  }

  /** "dot env" becomes ".env" and not ". env": the longer phrase goes
      first, and the "env" it leaves is no phrase. */
  lemma {:induction false} SpokenDotEnv(s: string)
    requires LowerStr(s) == "dot env"
    ensures Postprocessed(s) == ".env"
  {
    SpokenPhraseBecomesSymbol(s, 0);
  }

  /** No phrase of the table is `w`, in any case. */
  predicate Unlisted(w: string) {
    forall j :: 0 <= j < |CodingRules| ==> !SameIgnoringCase(w, CodingRules[j].phrase)
  }

  lemma DashboardSpelling()
    ensures AllWordChars("Dashboard") && NoCasingLetter("Dashboard")
  {
  }

  lemma DashboardUnlisted()
    ensures Unlisted("Dashboard")
  {
  }

  /** A word that merely contains a phrase is left alone: "dash" never
      matches inside "Dashboard", for want of a word boundary after it. */
  lemma {:induction false} DashboardUnchanged()
    ensures Postprocessed("Dashboard") == "Dashboard"
  {
    DashboardSpelling();
    DashboardUnlisted();
    CasingLeavesAlone("Dashboard");
    TableLeavesOtherWords("Dashboard", CodingRules);
  }

  // ---------------------------------------------------------------------
  // Phrases inside sentences

  lemma DashboardIsGreatSpelling()
    ensures NoCasingLetter("Dashboard is great")
    ensures AllWordChars("Dashboard") && AllWordChars("is") && AllWordChars("great")
    ensures LowerStr("Dashboard") == "dashboard" && LowerStr("is") == "is" && LowerStr("great") == "great"
  {
  }

  /** Each word of "Dashboard is great", lowered, is one of the three. */
  lemma {:induction false} DashboardIsGreatWords()
    ensures WordsIn("Dashboard is great", {"dashboard", "is", "great"})
  {
    var ws := {"dashboard", "is", "great"};
    DashboardIsGreatSpelling();
    WordsInWord("Dashboard", ws);
    WordsInWord("is", ws);
    WordsInWord("great", ws);
    WordsInAcross("is", ' ', "great", ws);
    assert "is" + [' '] + "great" == "is great";
    WordsInAcross("Dashboard", ' ', "is great", ws);
    assert "Dashboard" + [' '] + "is great" == "Dashboard is great";
  }

  lemma DashboardIsGreatHeads()
    ensures forall j :: 0 <= j < |Heads| ==> Heads[j] !in {"dashboard", "is", "great"}
  {
  }

  /** A sentence whose words are none of the phrases' first words comes out
      unchanged: "dash" does not match inside "Dashboard", and neither "is"
      nor "great" begins a phrase. */
  lemma {:induction false} DashboardIsGreatUnchanged()
    ensures Postprocessed("Dashboard is great") == "Dashboard is great"
  {
    DashboardIsGreatSpelling();
    DashboardIsGreatWords();
    DashboardIsGreatHeads();
    NoCasingLetterNoCommand("Dashboard is great");
    OtherWordsUnchanged("Dashboard is great", {"dashboard", "is", "great"});
  }

  lemma MakeItWorkSpelling()
    ensures AllWordChars("make") && AllWordChars("it") && AllWordChars("work")
    ensures LowerStr("make") == "make" && LowerStr("it") == "it" && LowerStr("work") == "work"
    ensures forall k :: 0 <= k < |"make it work"| ==> Lower("make it work"[k]) != Trigger(Camel)[0]
    ensures forall k :: 0 <= k < |"make it work"| ==> Lower("make it work"[k]) != Trigger(Snake)[6]
  {
  }

  /** Each word of "make it work" is one of the three. */
  lemma {:induction false} MakeItWorkWords()
    ensures WordsIn("make it work", {"make", "it", "work"})
  {
    var ws := {"make", "it", "work"};
    MakeItWorkSpelling();
    WordsInWord("make", ws);
    WordsInWord("it", ws);
    WordsInWord("work", ws);
    WordsInAcross("it", ' ', "work", ws);
    assert "it" + [' '] + "work" == "it work";
    WordsInAcross("make", ' ', "it work", ws);
    assert "make" + [' '] + "it work" == "make it work";
  }

  lemma MakeItWorkHeads()
    ensures forall j :: 0 <= j < |Heads| ==> Heads[j] !in {"make", "it", "work"}
  {
  }

  /** A sentence holding "m" and "k" but no casing command comes out
      unchanged: without a "c" neither trigger can match, and none of its
      words begins a phrase. */
  lemma {:induction false} MakeItWorkUnchanged()
    ensures Postprocessed("make it work") == "make it work"
  {
    var s := "make it work";
    MakeItWorkSpelling();
    TriggerLetterMissingNoMatch(s, Camel, 0);
    TriggerLetterMissingNoMatch(s, Snake, 6);
    assert NoCasingCommand(s);
    MakeItWorkWords();
    MakeItWorkHeads();
    OtherWordsUnchanged(s, {"make", "it", "work"});
  }

  lemma SentenceSpelling()
    ensures NoCasingLetter("a double equals b")
    ensures AllWordChars("a") && AllWordChars("double") && AllWordChars("equals") && AllWordChars("b")
    ensures LowerStr("a") == "a" && LowerStr("double") == "double" && LowerStr("equals") == "equals" && LowerStr("b") == "b"
  {
  }

  /** Each word of "a double equals b" is one of its four. */
  lemma {:induction false} SentenceWords()
    ensures WordsIn("a double equals b", {"a", "double", "equals", "b"})
  {
    var ws := {"a", "double", "equals", "b"};
    SentenceSpelling();
    WordsInWord("a", ws);
    WordsInWord("double", ws);
    WordsInWord("equals", ws);
    WordsInWord("b", ws);
    WordsInAcross("equals", ' ', "b", ws);
    assert "equals" + [' '] + "b" == "equals b";
    WordsInAcross("double", ' ', "equals b", ws);
    assert "double" + [' '] + "equals b" == "double equals b";
    WordsInAcross("a", ' ', "double equals b", ws);
    assert "a" + [' '] + "double equals b" == "a double equals b";
  }

  /** Each word of "a == b" is "a" or "b". */
  lemma {:induction false} ResultWords()
    ensures WordsIn("a == b", {"a", "b"})
  {
    var ws := {"a", "b"};
    SentenceSpelling();
    WordsInWord("a", ws);
    WordsInWord("b", ws);
    WordsInAcross([], ' ', "b", ws);
    assert [] + [' '] + "b" == " b";
    WordsInAcross([], '=', " b", ws);
    assert [] + ['='] + " b" == "= b";
    WordsInAcross([], '=', "= b", ws);
    assert [] + ['='] + "= b" == "== b";
    WordsInAcross("a", ' ', "== b", ws);
    assert "a" + [' '] + "== b" == "a == b";
  }

  /** Of the phrases' first words, only "double" (entry 1) and "equals"
      (entry 9) are words of the sentence, and none is "a" or "b". */
  lemma SentenceHeads()
    ensures forall j :: 0 <= j < |Heads| && Heads[j] in {"a", "double", "equals", "b"} ==> j == 1 || j == 9
    ensures forall j :: 0 <= j < |Heads| ==> Heads[j] !in {"a", "b"}
    ensures |CodingRules[9].phrase| < |CodingRules[1].phrase|
  {
  }

  /** "double equals" matches the sentence at 2 ... */
  lemma {:induction false} SentenceMatch()
    ensures MatchesAt("a double equals b", CodingRules[1].phrase, 2)
  {
    var s, p := "a double equals b", CodingRules[1].phrase;
    assert |p| == 13 && s[2..15] == p;
    assert IsBoundary(s, 2) && IsBoundary(s, 15);
    ExactMatch(s, p, 2);
  }

  /** ... and only there: nowhere else in reach does a "d" start a word. */
  lemma {:induction false} SentenceMatchOnlyAt(k: nat)
    requires MatchesAt("a double equals b", CodingRules[1].phrase, k)
    ensures k == 2
  {
    var s, p := "a double equals b", CodingRules[1].phrase;
    assert Lower(s[k..k + |p|][0]) == Lower(p[0]);
  }

  /** An entry at least as long as "double equals" that matches the sentence
      is "double equals": a match starts a word spelling the entry's first
      word, and of the sentence's words only "double" and "equals" are first
      words, "equals" of a shorter entry. */
  lemma {:induction false} SentenceLongerEntry(j: nat, k: nat)
    requires j < |CodingRules| && Key(CodingRules[j]) >= Key(CodingRules[1])
    requires MatchesAt("a double equals b", CodingRules[j].phrase, k)
    ensures j == 1
  {
    SentenceWords();
    MatchedHeadIsWord("a double equals b", {"a", "double", "equals", "b"}, j, k);
    SentenceHeads();
  }

  /** No entry at least as long as "double equals" matches the sentence
      anywhere but "double equals" itself at 2. */
  lemma {:induction false} SentenceLongerMatches()
    ensures forall j, k ::
      0 <= j < |CodingRules| && Key(CodingRules[j]) >= Key(CodingRules[1]) && 0 <= k < 17 && MatchesAt("a double equals b", CodingRules[j].phrase, k)
      ==> j == 1 && k == 2
  {
    forall j, k | 0 <= j < |CodingRules| && Key(CodingRules[j]) >= Key(CodingRules[1]) && 0 <= k < 17 && MatchesAt("a double equals b", CodingRules[j].phrase, k)
      ensures j == 1 && k == 2
    {
      SentenceLongerEntry(j, k);
      SentenceMatchOnlyAt(k);
    }
  }

  /** An operator said inside a sentence is replaced in place: "a double
      equals b" becomes "a == b".  The longer phrase goes first, "equals"
      alone finds nothing left, and "a" and "b" begin no phrase. */
  lemma {:induction false} OperatorInSentence()
    ensures Postprocessed("a double equals b") == "a == b"
  {
    var s := "a double equals b";
    SentenceSpelling();
    SentenceMatch();
    SentenceLongerMatches();
    assert "a == b" == s[..2] + CodingRules[1].symbol + s[2 + |CodingRules[1].phrase|..];
    assert SaidOnceAt(s, CodingRules, 1, 2, "a == b");
    ResultWords();
    SentenceHeads();
    NoCasingLetterNoCommand(s);
    EntryInSentence(s, 1, 2, "a == b", {"a", "b"});
  }

  // ---------------------------------------------------------------------
  // Casing commands, with the command word said in any mix of cases

  /** Words a command folds: at least one, each made of word characters,
      holding two word characters between them. */
  predicate Foldable(ws: seq<string>) {
    && ws != []
    && (forall i :: 0 <= i < |ws| ==> ws[i] != [] && AllWordChars(ws[i]))
    && (|ws| >= 2 || |ws[0]| >= 2)
  }

  /** A command word followed by `said`, one space and the words separated
      by single spaces, becomes the folded identifier. */
  lemma {:induction false} CommandAlone(style: Style, spoken: string, ws: seq<string>, said: string)
    requires LowerStr(spoken) == Trigger(style) && Foldable(ws)
    requires said == " " + JoinWith(' ', ws)
    ensures ApplyCasing(spoken + said, style) == Fold(style, ws)
  {
    var j := JoinWith(' ', ws);
    var s := spoken + " " + j + [];
    FoldSpokenPhrase(style, spoken, ws, []);
    assert ApplyCasing([], style) == [];
    assert s == spoken + said by {
      assert s == spoken + " " + j;
    }
  }

  /** An identifier made of word characters, with no "k" in it and not
      itself a phrase of the table, is what the last two stages return. */
  lemma {:induction false} IdentifierKept(w: string)
    requires AllWordChars(w) && Unlisted(w)
    requires forall k :: 0 <= k < |w| ==> Lower(w[k]) != 'k'
    ensures ApplyRules(ApplySnakeCase(w), SortByPhraseLength(CodingRules)) == w
  {
    assert Trigger(Snake)[3] == 'k';
    TriggerLetterMissing(w, Snake, 3);
    TableLeavesOtherWords(w, CodingRules);
  }

  lemma FooBarBaz()
    ensures Foldable(["foo", "bar", "baz"]) && " " + JoinWith(' ', ["foo", "bar", "baz"]) == " foo bar baz"
  {
  }

  lemma FooBarBazInCamelCase()
    ensures ToCamel(["foo", "bar", "baz"]) == "fooBarBaz"
  {
  }

  lemma FooBarBazUnlisted()
    ensures AllWordChars("fooBarBaz") && Unlisted("fooBarBaz")
  {
  }

  lemma FooBarBazKept()
    ensures ApplyRules(ApplySnakeCase("fooBarBaz"), SortByPhraseLength(CodingRules)) == "fooBarBaz"
  {
    FooBarBazUnlisted();
    IdentifierKept("fooBarBaz");
  }

  /** "camel case foo bar baz" becomes "fooBarBaz". */
  lemma {:induction false} CamelCaseCommand(spoken: string)
    requires LowerStr(spoken) == "camel case"
    ensures Postprocessed(spoken + " foo bar baz") == "fooBarBaz"
  {
    FooBarBaz();
    FooBarBazInCamelCase();
    CommandAlone(Camel, spoken, ["foo", "bar", "baz"], " foo bar baz");
    FooBarBazKept();
  }

  lemma FooBar()
    ensures Foldable(["foo", "bar"]) && " " + JoinWith(' ', ["foo", "bar"]) == " foo bar"
  {
  }

  lemma FooBarBazSnakeWord()
    ensures AllWordChars("foo_bar_baz") && LowerStr("foo_bar_baz") == "foo_bar_baz"
    ensures forall j :: 0 <= j < |Heads| ==> Heads[j] !in {"foo_bar_baz"}
  {
  }

  lemma FooBarBazInSnakeCase()
    ensures ToSnake(["foo", "bar", "baz"]) == "foo_bar_baz"
  {
    assert LowerStr("foo") == "foo" && LowerStr("bar") == "bar" && LowerStr("baz") == "baz";
    assert LowerAll(["foo", "bar", "baz"]) == ["foo", "bar", "baz"];
  }

  lemma FooBarInSnakeCase()
    ensures ToSnake(["foo", "bar"]) == "foo_bar"
  {
    assert LowerStr("foo") == "foo" && LowerStr("bar") == "bar";
    assert LowerAll(["foo", "bar"]) == ["foo", "bar"];
  }

  /** The snake case command holds no "m", so the camel case stage passes
      it by. */
  lemma {:induction false} SnakeCommandSkipsCamel(spoken: string, said: string)
    requires LowerStr(spoken) == "snake case"
    requires forall k :: 0 <= k < |said| ==> Lower(said[k]) != 'm'
    ensures ApplyCamelCase(spoken + said) == spoken + said
  {
    var s := spoken + said;
    SpelledAs(spoken, "snake case");
    forall k | 0 <= k < |s| ensures Lower(s[k]) != Trigger(Camel)[2] {
      if k < |spoken| {
        assert s[k] == spoken[k];
      } else {
        assert s[k] == said[k - |spoken|];
      }
    }
    TriggerLetterMissing(s, Camel, 2);
  }

  /** "snake case foo bar baz" becomes "foo_bar_baz". */
  lemma {:induction false} SnakeCaseCommand(spoken: string)
    requires LowerStr(spoken) == "snake case"
    ensures Postprocessed(spoken + " foo bar baz") == "foo_bar_baz"
  {
    FooBarBaz();
    FooBarBazInSnakeCase();
    FooBarBazSnakeWord();
    SnakeCommandSkipsCamel(spoken, " foo bar baz");
    CommandAlone(Snake, spoken, ["foo", "bar", "baz"], " foo bar baz");
    WordsInWord("foo_bar_baz", {"foo_bar_baz"});
    OtherWordsPassTable("foo_bar_baz", {"foo_bar_baz"});
  }

  lemma DotNet()
    ensures Foldable(["dot", "net"]) && " " + JoinWith(' ', ["dot", "net"]) == " dot net"
    ensures ToCamel(["dot", "net"]) == "dotNet"
  {
  }

  lemma DotNetUnlisted()
    ensures AllWordChars("dotNet") && Unlisted("dotNet")
  {
  }

  lemma DotNetKept()
    ensures ApplyRules(ApplySnakeCase("dotNet"), SortByPhraseLength(CodingRules)) == "dotNet"
  {
    DotNetUnlisted();
    IdentifierKept("dotNet");
  }

  /** The casing stages run before the phrase table, so a phrase folded into
      an identifier is no longer a word of its own: "camel case dot net"
      becomes "dotNet", not ".net". */
  lemma {:induction false} CasingBeforeRules(spoken: string)
    requires LowerStr(spoken) == "camel case"
    ensures Postprocessed(spoken + " dot net") == "dotNet"
  {
    DotNet();
    CommandAlone(Camel, spoken, ["dot", "net"], " dot net");
    DotNetKept();
  }

  lemma Foo()
    ensures Foldable(["foo"]) && " " + JoinWith(' ', ["foo"]) == " foo"
    ensures ToCamel(["foo"]) == "foo"
  {
  }

  lemma FooUnlisted()
    ensures AllWordChars("foo") && Unlisted("foo")
  {
  }

  lemma FooKept()
    ensures ApplyRules(ApplySnakeCase("foo"), SortByPhraseLength(CodingRules)) == "foo"
  {
    FooUnlisted();
    IdentifierKept("foo");
  }

  /** One word of two or more characters is enough for a match; the command
      word is then simply dropped. */
  lemma {:induction false} SingleWordCommand(spoken: string)
    requires LowerStr(spoken) == "camel case"
    ensures Postprocessed(spoken + " foo") == "foo"
  {
    Foo();
    CommandAlone(Camel, spoken, ["foo"], " foo");
    FooKept();
  }

  /** A single character after the command is not enough: nothing changes. */
  lemma {:induction false} OneLetterCommand(spoken: string)
    requires LowerStr(spoken) == "camel case"
    ensures ApplyCamelCase(spoken + " x") == spoken + " x"
  {
    ShortTextUnchanged(spoken + " x", Camel);
  }

  lemma FooBarThenPunctuation()
    ensures Foldable(["foo", "bar"]) && ToCamel(["foo", "bar"]) == "fooBar"
    ensures " " + JoinWith(' ', ["foo", "bar"]) + ", ok" == " foo bar, ok"
  {
  }

  lemma PunctuationCopied()
    ensures !IsWordOrSpace(", ok"[0]) && ApplyCamelCase(", ok") == ", ok"
    ensures "fooBar" + ", ok" == "fooBar, ok"
  {
    ShortTextUnchanged(", ok", Camel);
  }

  /** The word run stops at punctuation; what follows is copied. */
  lemma {:induction false} CommandStopsAtPunctuation(spoken: string)
    requires LowerStr(spoken) == "camel case"
    ensures ApplyCamelCase(spoken + " foo bar, ok") == "fooBar, ok"
  {
    FooBarThenPunctuation();
    PunctuationCopied();
    FoldSpokenPhrase(Camel, spoken, ["foo", "bar"], ", ok");
    assert spoken + " " + JoinWith(' ', ["foo", "bar"]) + ", ok" == spoken + (" " + JoinWith(' ', ["foo", "bar"]) + ", ok");
  }

  // ---------------------------------------------------------------------
  // Casing commands after other text

  lemma PleaseBefore()
    ensures forall k :: 0 <= k < |"please "| ==> Lower("please "[k]) != Trigger(Camel)[0]
    ensures "please " + "fooBar" == "please fooBar"
  {
  }

  /** Text before a command is copied as it is: "please camel case foo bar"
      becomes "please fooBar". */
  lemma {:induction false} CommandAfterWords(spoken: string)
    requires LowerStr(spoken) == "camel case"
    ensures ApplyCamelCase("please " + spoken + " foo bar") == "please fooBar"
  {
    FooBar();
    FooBarThenPunctuation();
    PleaseBefore();
    CommandAfterText(Camel, "please ", spoken, ["foo", "bar"], []);
    assert ApplyCasing([], Camel) == [];
    assert "please " + spoken + " " + JoinWith(' ', ["foo", "bar"]) + [] == "please " + spoken + " foo bar";
  }

  lemma XBefore()
    ensures forall k :: 0 <= k < |"x"| ==> Lower("x"[k]) != Trigger(Snake)[0]
    ensures "x" + "foo_bar" == "xfoo_bar"
  {
  }

  /** The pattern needs no word boundary before the trigger: "xsnake case
      foo bar" becomes "xfoo_bar". */
  lemma {:induction false} CommandInsideWord(spoken: string)
    requires LowerStr(spoken) == "snake case"
    ensures ApplySnakeCase("x" + spoken + " foo bar") == "xfoo_bar"
  {
    FooBar();
    FooBarInSnakeCase();
    XBefore();
    CommandAfterText(Snake, "x", spoken, ["foo", "bar"], []);
    assert ApplyCasing([], Snake) == [];
    assert "x" + spoken + " " + JoinWith(' ', ["foo", "bar"]) + [] == "x" + spoken + " foo bar";
  }
}
