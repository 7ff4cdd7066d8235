/**
  postprocess: the three coding-aware stages run on the transcript in a
  fixed order, camel case, then snake case, then the phrase table.
*/
module Postprocessor {
  import opened Text
  import opened Casing
  import opened Rules

  /** What postprocess returns for `text`. */
  function Postprocessed(text: string): string {
    ApplyRules(ApplySnakeCase(ApplyCamelCase(text)), SortByPhraseLength(CodingRules))
  }

  /** postprocess, stage by stage. */
  method Postprocess(text: string) returns (result: string)
    ensures result == Postprocessed(text)
  {
    result := ApplyCamelCase(text);
    result := ApplySnakeCase(result);
    result := ApplyCodingRules(result);
  }

  /** Text without word characters passes all three stages unchanged: the
      triggers start with a letter and no `\b` exists for a phrase to match.
      In particular every symbol of the table but ".env" and "_" is a fixed
      point. */
  lemma {:induction false} WordlessTextUnchanged(s: string)
    requires forall k :: 0 <= k < |s| ==> !IsWordChar(s[k])
    ensures Postprocessed(s) == s
  {
    forall k | 0 <= k < |s| ensures Lower(s[k]) != Trigger(Camel)[0] && Lower(s[k]) != Trigger(Snake)[0] {
      assert Lower(s[k]) == s[k];
    }
    TriggerLetterMissing(s, Camel, 0);
    TriggerLetterMissing(s, Snake, 0);
    WordlessTextFixed(s, SortByPhraseLength(CodingRules));
  }

  /** Post-processing settles once its output has no word characters left:
      running it again changes nothing. */
  lemma {:induction false} WordlessOutputIsFinal(s: string)
    requires forall k :: 0 <= k < |Postprocessed(s)| ==> !IsWordChar(Postprocessed(s)[k])
    ensures Postprocessed(Postprocessed(s)) == Postprocessed(s)
  {
    WordlessTextUnchanged(Postprocessed(s));
  }

  /** Neither an "m" nor a "k" appears in `s`, in either case. */
  predicate NoCasingLetter(s: string) {
    forall k :: 0 <= k < |s| ==> Lower(s[k]) != 'm' && Lower(s[k]) != 'k'
  }

  /** Text lacking, in either case, one letter of "camel case" (letter `a`)
      and one letter of "snake case" (letter `b`) passes both casing stages
      unchanged. */
  lemma {:induction false} CasingPassesBy(s: string, a: nat, b: nat)
    requires a < |Trigger(Camel)| && b < |Trigger(Snake)|
    requires forall k :: 0 <= k < |s| ==> Lower(s[k]) != Trigger(Camel)[a] && Lower(s[k]) != Trigger(Snake)[b]
    ensures ApplySnakeCase(ApplyCamelCase(s)) == s
  {
    TriggerLetterMissing(s, Camel, a);
    TriggerLetterMissing(s, Snake, b);
  }

  /** Text in which neither an "m" nor a "k" appears, in either case, passes
      both casing stages unchanged: "camel case" needs the one and
      "snake case" the other. */
  lemma {:induction false} CasingLeavesAlone(s: string)
    requires NoCasingLetter(s)
    ensures ApplySnakeCase(ApplyCamelCase(s)) == s
  {
    assert Trigger(Camel)[2] == 'm' && Trigger(Snake)[3] == 'k';
    CasingPassesBy(s, 2, 3);
  }

  /** Neither casing command matches at any position of `s`. */
  predicate NoCasingCommand(s: string) {
    forall i :: 0 <= i < |s| ==>
      MatchCasing(s[i..], Trigger(Camel)).None? && MatchCasing(s[i..], Trigger(Snake)).None?
  }

  /** A text in which no casing command matches passes both casing stages
      unchanged. */
  lemma {:induction false} CommandlessCasingUnchanged(s: string)
    requires NoCasingCommand(s)
    ensures ApplySnakeCase(ApplyCamelCase(s)) == s
  {
    ApplyCasingWithoutMatch(s, Camel);
    ApplyCasingWithoutMatch(s, Snake);
  }

  /** A text without "m" and "k" holds no casing command. */
  lemma {:induction false} NoCasingLetterNoCommand(s: string)
    requires NoCasingLetter(s)
    ensures NoCasingCommand(s)
  {
    assert Trigger(Camel)[2] == 'm' && Trigger(Snake)[3] == 'k';
    TriggerLetterMissingNoMatch(s, Camel, 2);
    TriggerLetterMissingNoMatch(s, Snake, 3);
  }

  /** A text holding no casing command and no phrase of the table is what
      postprocess returns. */
  lemma {:induction false} NoMatchUnchanged(s: string)
    requires NoCasingCommand(s) && Unmatched(s, CodingRules)
    ensures Postprocessed(s) == s
  {
    CommandlessCasingUnchanged(s);
    TableWithoutMatch(s, CodingRules);
  }
}
