# voice_coding core, in Dafny

A model of the two algorithmic parts of the voice_coding dictation tool.

**The transcript post-processor** (`postprocess`) runs three stages in a fixed order:

1. The "camel case" command: "camel case foo bar baz" becomes `fooBarBaz`.
2. The "snake case" command: "snake case foo bar baz" becomes `foo_bar_baz`.
3. The table of 24 spoken coding phrases (`CODING_RULES`). Each whole-word, case-insensitive occurrence of a phrase becomes its symbol, longest phrase first. For example, "double equals" becomes `==`.

**The microphone `Recorder`:**

- `start` empties the frame buffer, stamps the time and opens the input stream.
- The stream callback appends each delivered block.
- `stop` closes the stream. It then hands back either nothing or every buffered sample in arrival order, and always leaves the buffer empty. It hands back nothing when no block arrived or the recording is shorter than half a second.

Modules:

- `Text` (text.dfy): the ASCII character classes behind `\w` and `\s`, case mapping, and `str.split()` as `Words`. Also proves that splitting undoes joining with single spaces.
- `Casing` (casing.dfy): the two casing stages.
  - The regex `<trigger>\s+((?:\w+\s*){2,})` is written out as a left-to-right scanner: `MatchCasing` and `ApplyCasing`.
  - `_to_camel` and `_to_snake` become `ToCamel` and `ToSnake`.
  - Partners: `SplitCamel` and `SplitOn`, with their round-trip lemmas.
- `Rules` (coding_rules.dfy):
  - the phrase table `CodingRules`;
  - the stable sort by descending phrase length, with its specification and a proof that the specification has one solution;
  - one `re.sub` with `\b…\b` and IGNORECASE (`ReplaceWord`);
  - the loop of `_apply_coding_rules` as the method `ApplyCodingRules`, proved against the fold `ApplyRules`.
- `Postprocessor` (postprocessor.dfy): `postprocess` as a method proved against the function `Postprocessed`, and the fixed points of the pipeline.
- `Phrases` (phrases.dfy): every phrase of the table, said on its own in any mix of cases, becomes its symbol. Each entry's facts are proved once, and one case split puts them together.
- `FirstWords` (first_words.dfy): phrases inside sentences. A phrase can match only where a whole word of the text spells its first word, so the first word of every entry decides which sentences the table leaves alone. It also decides when a phrase said inside a sentence is replaced in place.
- `Scenarios` (scenarios.dfy): worked cases of `postprocess`. The operator phrases are said in any mix of cases, and so are the casing commands' command words. Covered:
  - a word that only contains a phrase ("Dashboard"), alone and in the sentence "Dashboard is great";
  - a sentence with "m" and "k" but no casing command ("make it work") left unchanged;
  - an operator inside a sentence ("a double equals b" becomes "a == b");
  - the greedy word run of a casing command;
  - a casing command after other text, which is copied, even when that text ends in a word character ("xsnake case foo bar" becomes "xfoo_bar");
  - the order of the stages.
- `Recorder` (recorder.dfy):
  - the `Recorder` class with fields `frames`, `streamOpen` and `startTime`, and its methods;
  - the outcome of `stop` as the function `Outcome`;
  - a stream delivering blocks one by one (`Deliver`);
  - whole start/stop cycles (`Session`, `TwoSessions`).

Two behaviours of the code are easy to misread:

- **How many words a casing command needs.** The pattern `(?:\w+\s*){2,}` reads as two or more words. Backtracking can split one word in two, though, so two word characters are enough. "camel case foo" therefore becomes `foo` (`Scenarios.SingleWordCommand`). "camel case x" stays as it is (`Scenarios.OneLetterCommand`).
- **Calling `stop` when not recording.** `Stop` has no precondition: the code checks `self._stream is not None` and carries on. `Recorder.StopWithoutStart` shows such a call returning nothing.

## Model

| member | source | states |
|---|---|---|
| Text.SameIgnoringCaseIffLowerEqual | voice_coding/postprocessor.py:41 | two texts are equal under IGNORECASE exactly when their lower-cased forms are equal |
| Text.WordsKeepEveryOtherChar | voice_coding/postprocessor.py:49 | `split()` loses only whitespace: the words glued together are the text with its whitespace removed |
| Text.WordsOfJoin | voice_coding/postprocessor.py:49 | splitting words joined by single spaces gives back those words |
| Text.WordsOfWordText | voice_coding/postprocessor.py:49 | the words split from a run of word and whitespace characters consist of word characters only |
| Text.Words | voice_coding/postprocessor.py:49 | `str.split()`: every word it returns is non-empty and holds no whitespace (that the words glued together are the text without its whitespace is `WordsKeepEveryOtherChar`) |
| Text.Capitalize | voice_coding/postprocessor.py:52 | `str.capitalize` on ASCII: the word keeps its length, its first character upper-cased and the rest lower-cased (no further contract of its own; `Casing.CamelRoundTrip` relies on it) |
| Text.FirstWord | voice_coding/postprocessor.py:40 | the leading run of word characters of a phrase: a prefix of it, all word characters, followed by a non-word character or the end |
| Text.FirstWordIs | voice_coding/postprocessor.py:40 | a prefix of word characters followed by a non-word character, or by the end, is the first word |
| Text.WordsInAcross | voice_coding/postprocessor.py:40 | `\b` splits a text at a non-word character: the words of the joined text are the words of its two parts |
| Text.WordsInWord | voice_coding/postprocessor.py:40 | a run of word characters is one word, the whole run |
| Casing.MatchCasing | voice_coding/postprocessor.py:54 | a match always ends after the trigger and inside the text |
| Casing.ApplyCasing | voice_coding/postprocessor.py:54 | one `re.sub` pass of a casing pattern: left to right, a match is replaced by the folded words of its group and scanning resumes after it, otherwise one character is copied (no contract of its own; stated by `ApplyCasingWithoutMatch`, `CasingCopiedUpTo`, `ShortTextUnchanged`, `TriggerLetterMissing`, `FoldSpokenPhrase` and `CommandAfterText`) |
| Casing.ApplyCamelCase | voice_coding/postprocessor.py:45-54 | `_apply_camel_case`: the pass with the trigger "camel case" and `_to_camel` (no contract of its own; stated by the `ApplyCasing` lemmas, `Scenarios.CamelCaseCommand` and `Scenarios.CommandAfterWords`) |
| Casing.ApplySnakeCase | voice_coding/postprocessor.py:57-64 | `_apply_snake_case`: the pass with the trigger "snake case" and `_to_snake` (no contract of its own; stated by the `ApplyCasing` lemmas, `Scenarios.SnakeCaseCommand` and `Scenarios.CommandInsideWord`) |
| Casing.ToCamel | voice_coding/postprocessor.py:48-52 | `_to_camel`: the first word lower-cased, the others capitalized, glued together; no words gives "" (no contract of its own; stated by `CamelRoundTrip`, whose second clause fixes the first word as holding no capital, and `FoldedSpanIsIdentifier`) |
| Casing.ToSnake | voice_coding/postprocessor.py:60-62 | `_to_snake`: the words lower-cased and joined with "_" (no contract of its own; stated by `SnakeRoundTrip` and `FoldedSpanIsIdentifier`) |
| Casing.MatchCasingWhen | voice_coding/postprocessor.py:54 | the pattern matches exactly when the trigger (any case) is followed by whitespace and the following run of word and whitespace characters holds at least two word characters |
| Casing.MatchCasingIsGreedy | voice_coding/postprocessor.py:49-54 | a match spans the whole run of word and whitespace characters after the trigger, stops only at a character that is neither, and its group splits into the same words as that span |
| Casing.ApplyCasingWithoutMatch | voice_coding/postprocessor.py:54 | where the pattern matches at no position, the stage returns its input unchanged |
| Casing.CasingCopiedUpTo | voice_coding/postprocessor.py:54 | up to the first position where the pattern matches, the stage copies the text unchanged and then goes on from that position |
| Casing.TriggerCannotStart | voice_coding/postprocessor.py:54 | the pattern matches at no position whose character is not, in either case, the trigger's first letter |
| Casing.ShortTextUnchanged | voice_coding/postprocessor.py:54 | a text shorter than the trigger plus three characters is returned unchanged |
| Casing.TriggerLetterMissing | voice_coding/postprocessor.py:54 | a text lacking some letter of the trigger (in either case) is returned unchanged |
| Casing.TriggerLetterMissingNoMatch | voice_coding/postprocessor.py:54 | where some letter of the trigger never appears, in either case, the pattern matches at no position |
| Casing.FoldedSpanIsIdentifier | voice_coding/postprocessor.py:48-54 | the replacement for a match, camel or snake, consists of word characters only |
| Casing.CamelRoundTrip | voice_coding/postprocessor.py:48-52 | splitting `_to_camel`'s output before each capital gives back the lower-cased words, and the output starts with the first word holding no capital |
| Casing.SnakeRoundTrip | voice_coding/postprocessor.py:60-62 | splitting `_to_snake`'s output at "_" gives back the lower-cased words, and the output has no capitals |
| Casing.FoldSpokenPhrase | voice_coding/postprocessor.py:45-64 | the command word (any case), one space and single-spaced words, followed by a non-word, non-space character or the end, is replaced by the folded identifier, and scanning resumes at that character |
| Casing.CommandAfterText | voice_coding/postprocessor.py:45-64 | a spoken command after text in which the trigger's first letter does not appear folds right after that text, which is copied as it is; no word boundary is needed before the trigger |
| Rules.SortIsStable | voice_coding/postprocessor.py:36-38 | the sorted rules are in descending phrase length, a permutation of the table, and keep the table order among phrases of equal length |
| Rules.StableOrderIsUnique | voice_coding/postprocessor.py:36-38 | two descending arrangements with the same rules of each length in the same order are equal |
| Rules.SortIsTheStableOrder | voice_coding/postprocessor.py:36-38 | any descending arrangement that keeps the table order within each length is the sort's result |
| Rules.SortByPhraseLength | voice_coding/postprocessor.py:36-38 | `sorted(..., key=len, reverse=True)`: as many rules as the table (the order and the permutation are `SortIsStable`) |
| Rules.SortedRuleIsEntry | voice_coding/postprocessor.py:36-38 | every rule of the sorted table is an entry of the table |
| Rules.ReplaceFrom | voice_coding/postprocessor.py:40-41 | `re.sub` with `\b<phrase>\b` and IGNORECASE from position i: at a match the symbol is emitted and scanning resumes after the match, otherwise one character is copied (no contract of its own; stated by `ReplaceWithoutMatch`, `CopiedUpTo` and `ReplaceSingleMatch`) |
| Rules.ReplaceWord | voice_coding/postprocessor.py:40-41 | one rule applied to the whole text (no contract of its own; stated by `ReplaceWithoutMatch`, `WholePhraseReplaced` and `ReplaceSingleMatch`) |
| Rules.ReplaceWithoutMatch | voice_coding/postprocessor.py:40-41 | a rule whose pattern matches nowhere leaves the text unchanged |
| Rules.WholePhraseReplaced | voice_coding/postprocessor.py:40-41 | a text that is the phrase itself in any case becomes the symbol, when the phrase begins and ends with word characters |
| Rules.WordNotPhraseUnmatched | voice_coding/postprocessor.py:39-41 | inside a single word that is not the phrase, the phrase matches nowhere, as `\b` is missing |
| Rules.WordlessTextUnmatched | voice_coding/postprocessor.py:40 | in a text without word characters no phrase pattern matches |
| Rules.ExactMatch | voice_coding/postprocessor.py:40-41 | a phrase written exactly, with a word boundary at both ends, matches |
| Rules.MatchSpellsFirstWord | voice_coding/postprocessor.py:39-41 | a match of a phrase that begins with a word character starts a whole word of the text, and that word spells the phrase's first word, ignoring case |
| Rules.SameSpellingMatches | voice_coding/postprocessor.py:41 | phrases equal ignoring case match at the same places |
| Rules.CopiedUpTo | voice_coding/postprocessor.py:41 | `re.sub` copies the text up to the next match unchanged |
| Rules.ReplaceSingleMatch | voice_coding/postprocessor.py:40-41 | a phrase that matches at exactly one place is replaced there, and the text before and after it is kept as it is |
| Rules.ApplyCodingRules | voice_coding/postprocessor.py:33-42 | the loop applies the rules one after another in sorted order: its result is the fold of `ReplaceWord` over the sorted table |
| Rules.ApplyRules | voice_coding/postprocessor.py:36-41 | the rules applied one after another, each to the previous one's output (no contract of its own; `ApplyCodingRules` is proved against it and the lemmas below state what it does) |
| Rules.ApplyRulesWithoutMatch | voice_coding/postprocessor.py:36-41 | rules none of whose patterns match the text leave it unchanged |
| Rules.WordlessTextFixed | voice_coding/postprocessor.py:36-41 | a text without word characters passes every rule unchanged |
| Rules.PhraseBecomesSymbol | voice_coding/postprocessor.py:35-41 | in a descending rule list, a phrase said on its own becomes its symbol, provided phrases equal to it ignoring case share its symbol and no phrase matches inside its symbol |
| Rules.TableLeavesOtherWords | voice_coding/postprocessor.py:36-41 | a single word that equals no phrase of the table, ignoring case, passes the sorted table unchanged |
| Rules.TableWithoutMatch | voice_coding/postprocessor.py:36-41 | a text in which no phrase of the table matches passes the sorted table unchanged |
| Rules.MatchedFirstWordIsWord | voice_coding/postprocessor.py:39-41 | wherever a phrase matches a text, the phrase's first word, lowered, is a word of that text |
| Rules.FirstWordElsewhere | voice_coding/postprocessor.py:39-41 | a phrase beginning with a word character whose first word, ignoring case, is none of the words of a text matches nowhere in it |
| Rules.NoMatchAmongOtherWords | voice_coding/postprocessor.py:39-41 | in a text none of whose words spells, ignoring case, the first word of a phrase, no such phrase matches anywhere |
| Rules.TextOfOtherWordsUnchanged | voice_coding/postprocessor.py:36-41 | such a text passes all the rules unchanged, however long it is |
| Rules.PhraseInTextBecomesSymbol | voice_coding/postprocessor.py:35-41 | in a descending rule list, a phrase inside a longer text is replaced in place: when no phrase at least as long matches anywhere else and no phrase matches the text once the occurrence is replaced |
| Rules.MatchedByFirst | voice_coding/postprocessor.py:36-41 | when the first rule is spelled like the phrase and matches only there, it replaces that occurrence and no later rule finds anything |
| Rules.WordlessSymbolUntouched | voice_coding/postprocessor.py:40 | no phrase pattern matches inside a symbol without word characters |
| Rules.TableEntryBecomesSymbol | voice_coding/postprocessor.py:5-41 | an entry becomes its symbol when said on its own in any case, if its phrase begins and ends with word characters, no phrase of the table matches inside its symbol, and no other entry shares its length and first and last characters |
| Rules.TableEntryInText | voice_coding/postprocessor.py:5-41 | an entry said inside a longer text is replaced in place by its symbol, the rest of the text kept, when no entry at least as long matches anywhere else and nothing matches after the replacement |
| Postprocessor.Postprocess | voice_coding/postprocessor.py:67-72 | the three stages in order, camel case, then snake case, then the phrase table |
| Postprocessor.Postprocessed | voice_coding/postprocessor.py:67-72 | what `postprocess` returns: the camel stage, then the snake stage, then the phrase table (no contract of its own; `Postprocess` is proved against it and the lemmas below state what it does) |
| Postprocessor.WordlessTextUnchanged | voice_coding/postprocessor.py:67-72 | a text without word characters (every symbol but ".env" and "_") passes all three stages unchanged |
| Postprocessor.WordlessOutputIsFinal | voice_coding/postprocessor.py:67-72 | once the output has no word characters, post-processing it again changes nothing |
| Postprocessor.CasingPassesBy | voice_coding/postprocessor.py:69-70 | a text lacking one letter of "camel case" and one of "snake case", in either case, passes both casing stages unchanged |
| Postprocessor.CasingLeavesAlone | voice_coding/postprocessor.py:69-70 | a text with no "m" and no "k" passes both casing stages unchanged |
| Postprocessor.CommandlessCasingUnchanged | voice_coding/postprocessor.py:69-70 | a text in which neither casing command matches at any position passes both casing stages unchanged |
| Postprocessor.NoCasingLetterNoCommand | voice_coding/postprocessor.py:54-64 | a text with no "m" and no "k" holds no casing command |
| Postprocessor.NoMatchUnchanged | voice_coding/postprocessor.py:67-72 | a text holding no casing command and matched by no phrase of the table is returned unchanged |
| Phrases.RecognisableBecomesSymbol | voice_coding/postprocessor.py:67-72 | an entry whose phrase is lower case, begins and ends with a word character, lacks a letter of each casing command, shares its length and end characters with no other phrase, and whose symbol holds no phrase, becomes its symbol when said alone in any case |
| Phrases.SpokenPhraseBecomesSymbol | voice_coding/postprocessor.py:5-42 | every one of the 24 phrases, said on its own in any mix of cases, comes out of postprocess as exactly its symbol |
| Phrases.EveryEntryRecognisable | voice_coding/postprocessor.py:5-30 | every entry of the table meets those conditions |
| Phrases.DotEnvEntry | voice_coding/postprocessor.py:6 | "dot env" (to ".env") meets those conditions |
| Phrases.DoubleEqualsEntry | voice_coding/postprocessor.py:7 | "double equals" (to "==") meets those conditions |
| Phrases.TripleEqualsEntry | voice_coding/postprocessor.py:8 | "triple equals" (to "===") meets those conditions |
| Phrases.NotEqualsEntry | voice_coding/postprocessor.py:9 | "not equals" (to "!=") meets those conditions |
| Phrases.ArrowEntry | voice_coding/postprocessor.py:10 | "arrow" (to "=>") meets those conditions |
| Phrases.SlashEntry | voice_coding/postprocessor.py:11 | "slash" (to "/") meets those conditions |
| Phrases.DotEntry | voice_coding/postprocessor.py:12 | "dot" (to ".") meets those conditions |
| Phrases.DashEntry | voice_coding/postprocessor.py:13 | "dash" (to "-") meets those conditions |
| Phrases.UnderscoreEntry | voice_coding/postprocessor.py:14 | "underscore" (to "_") meets those conditions |
| Phrases.EqualsEntry | voice_coding/postprocessor.py:15 | "equals" (to "=") meets those conditions |
| Phrases.HashEntry | voice_coding/postprocessor.py:16 | "hash" (to "#") meets those conditions |
| Phrases.AtSignEntry | voice_coding/postprocessor.py:17 | "at sign" (to "@") meets those conditions |
| Phrases.AmpersandEntry | voice_coding/postprocessor.py:18 | "ampersand" (to "&") meets those conditions |
| Phrases.PipeEntry | voice_coding/postprocessor.py:19 | "pipe" (to "\|") meets those conditions |
| Phrases.TildeEntry | voice_coding/postprocessor.py:20 | "tilde" (to "~") meets those conditions |
| Phrases.BacktickEntry | voice_coding/postprocessor.py:21 | "backtick" (to a backtick) meets those conditions |
| Phrases.OpenParenEntry | voice_coding/postprocessor.py:22 | "open paren" (to "(") meets those conditions |
| Phrases.CloseParenEntry | voice_coding/postprocessor.py:23 | "close paren" (to ")") meets those conditions |
| Phrases.OpenBracketEntry | voice_coding/postprocessor.py:24 | "open bracket" (to "[") meets those conditions |
| Phrases.CloseBracketEntry | voice_coding/postprocessor.py:25 | "close bracket" (to "]") meets those conditions |
| Phrases.OpenBraceEntry | voice_coding/postprocessor.py:26 | "open brace" (to "{") meets those conditions |
| Phrases.CloseBraceEntry | voice_coding/postprocessor.py:27 | "close brace" (to "}") meets those conditions |
| Phrases.NewLineEntry | voice_coding/postprocessor.py:28 | "new line" (to a line break) meets those conditions |
| Phrases.TabEntry | voice_coding/postprocessor.py:29 | "tab" (to a tab) meets those conditions |
| FirstWords.EveryHead | voice_coding/postprocessor.py:5-30 | `Heads` lists the first word of every entry's phrase, in table order |
| FirstWords.DotEnvHead | voice_coding/postprocessor.py:6 | the first word of "dot env" is "dot" |
| FirstWords.DoubleEqualsHead | voice_coding/postprocessor.py:7 | the first word of "double equals" is "double" |
| FirstWords.TripleEqualsHead | voice_coding/postprocessor.py:8 | the first word of "triple equals" is "triple" |
| FirstWords.NotEqualsHead | voice_coding/postprocessor.py:9 | the first word of "not equals" is "not" |
| FirstWords.ArrowHead | voice_coding/postprocessor.py:10 | the first word of "arrow" is "arrow" |
| FirstWords.SlashHead | voice_coding/postprocessor.py:11 | the first word of "slash" is "slash" |
| FirstWords.DotHead | voice_coding/postprocessor.py:12 | the first word of "dot" is "dot" |
| FirstWords.DashHead | voice_coding/postprocessor.py:13 | the first word of "dash" is "dash" |
| FirstWords.UnderscoreHead | voice_coding/postprocessor.py:14 | the first word of "underscore" is "underscore" |
| FirstWords.EqualsHead | voice_coding/postprocessor.py:15 | the first word of "equals" is "equals" |
| FirstWords.HashHead | voice_coding/postprocessor.py:16 | the first word of "hash" is "hash" |
| FirstWords.AtSignHead | voice_coding/postprocessor.py:17 | the first word of "at sign" is "at" |
| FirstWords.AmpersandHead | voice_coding/postprocessor.py:18 | the first word of "ampersand" is "ampersand" |
| FirstWords.PipeHead | voice_coding/postprocessor.py:19 | the first word of "pipe" is "pipe" |
| FirstWords.TildeHead | voice_coding/postprocessor.py:20 | the first word of "tilde" is "tilde" |
| FirstWords.BacktickHead | voice_coding/postprocessor.py:21 | the first word of "backtick" is "backtick" |
| FirstWords.OpenParenHead | voice_coding/postprocessor.py:22 | the first word of "open paren" is "open" |
| FirstWords.CloseParenHead | voice_coding/postprocessor.py:23 | the first word of "close paren" is "close" |
| FirstWords.OpenBracketHead | voice_coding/postprocessor.py:24 | the first word of "open bracket" is "open" |
| FirstWords.CloseBracketHead | voice_coding/postprocessor.py:25 | the first word of "close bracket" is "close" |
| FirstWords.OpenBraceHead | voice_coding/postprocessor.py:26 | the first word of "open brace" is "open" |
| FirstWords.CloseBraceHead | voice_coding/postprocessor.py:27 | the first word of "close brace" is "close" |
| FirstWords.NewLineHead | voice_coding/postprocessor.py:28 | the first word of "new line" is "new" |
| FirstWords.TabHead | voice_coding/postprocessor.py:29 | the first word of "tab" is "tab" |
| FirstWords.EntryHead | voice_coding/postprocessor.py:5-30 | every phrase begins with a word character, and its first word is its entry's head |
| FirstWords.EntryIsDistinctive | voice_coding/postprocessor.py:5-30 | every entry begins and ends with a word character, has a symbol no phrase matches in, and shares its length and end characters with no other entry |
| FirstWords.MatchedHeadIsWord | voice_coding/postprocessor.py:39-41 | wherever an entry's pattern matches a text, the entry's first word, lowered, is a word of that text |
| FirstWords.OtherWordsUnmatched | voice_coding/postprocessor.py:36-41 | no phrase of the table matches anywhere in a text none of whose words is, ignoring case, the first word of a phrase |
| FirstWords.OtherWordsPassTable | voice_coding/postprocessor.py:33-42 | such a text comes out of `_apply_coding_rules` unchanged |
| FirstWords.OtherWordsUnchanged | voice_coding/postprocessor.py:67-72 | such a text holding no casing command comes out of `postprocess` unchanged |
| FirstWords.EntryInSentence | voice_coding/postprocessor.py:67-72 | a phrase said inside a sentence holding no casing command is replaced in place by its symbol, the rest kept, when no entry at least as long matches anywhere else and the words left are none of the phrases' first words |
| Scenarios.SpokenDoubleEquals | voice_coding/postprocessor.py:33-42 | "double equals" in any case becomes "==", not "double =" |
| Scenarios.DoubleEqualsIsFinal | voice_coding/postprocessor.py:67-72 | post-processing the result of "double equals" again still gives "==" |
| Scenarios.SpokenNotEquals | voice_coding/postprocessor.py:33-42 | "not equals" in any case becomes "!=" |
| Scenarios.SpokenDotEnv | voice_coding/postprocessor.py:33-42 | "dot env" in any case becomes ".env", not ". env" |
| Scenarios.DashboardUnchanged | voice_coding/postprocessor.py:39-41 | "Dashboard" is returned unchanged although "dash" is a phrase |
| Scenarios.DashboardIsGreatUnchanged | voice_coding/postprocessor.py:39-41 | "Dashboard is great" comes out of `postprocess` unchanged: "dash" does not match inside "Dashboard" |
| Scenarios.MakeItWorkUnchanged | voice_coding/postprocessor.py:67-72 | "make it work", which holds "m" and "k" but no "c", comes out of `postprocess` unchanged |
| Scenarios.SentenceLongerMatches | voice_coding/postprocessor.py:35-41 | in "a double equals b", no phrase at least as long as "double equals" matches anywhere but "double equals" itself, at position 2 |
| Scenarios.OperatorInSentence | voice_coding/postprocessor.py:67-72 | "a double equals b" becomes "a == b": the phrase is replaced in place, and the shorter "equals" finds nothing left |
| Scenarios.CamelCaseCommand | voice_coding/postprocessor.py:45-54 | "camel case foo bar baz", command word in any case, becomes "fooBarBaz" |
| Scenarios.SnakeCaseCommand | voice_coding/postprocessor.py:57-64 | "snake case foo bar baz", command word in any case, becomes "foo_bar_baz" |
| Scenarios.CasingBeforeRules | voice_coding/postprocessor.py:67-72 | "camel case dot net" becomes "dotNet": the phrase "dot" is folded before the table runs |
| Scenarios.SingleWordCommand | voice_coding/postprocessor.py:54 | "camel case foo" becomes "foo": one word of two characters satisfies `{2,}` |
| Scenarios.OneLetterCommand | voice_coding/postprocessor.py:54 | "camel case x" is left unchanged |
| Scenarios.CommandStopsAtPunctuation | voice_coding/postprocessor.py:54 | "camel case foo bar, ok" becomes "fooBar, ok": the word run ends at the comma and the rest is copied |
| Scenarios.CommandAfterWords | voice_coding/postprocessor.py:45-54 | "please camel case foo bar", command word in any case, becomes "please fooBar" after the camel case stage: the text before the command is copied |
| Scenarios.CommandInsideWord | voice_coding/postprocessor.py:57-64 | "xsnake case foo bar" becomes "xfoo_bar" after the snake case stage: the pattern needs no word boundary before the trigger |
| Recorder.Outcome | voice_coding/recorder.py:47-51 | nothing is returned exactly when no block arrived or less than the minimum duration elapsed |
| Recorder.Flatten | voice_coding/recorder.py:51 | `np.concatenate` of the blocks in arrival order (no contract of its own; stated by `FlattenLength`, `FlattenSplit` and `FlattenPlacesSample`) |
| Recorder.FlattenLength | voice_coding/recorder.py:51 | the concatenated audio is as long as all blocks together |
| Recorder.FlattenSplit | voice_coding/recorder.py:51 | concatenating two runs of blocks is concatenating their concatenations |
| Recorder.FlattenPlacesSample | voice_coding/recorder.py:51 | sample i of block j sits right after all samples of earlier blocks |
| Recorder.ThresholdIsInclusive | voice_coding/recorder.py:47 | a recording of exactly 500 ms is kept, one of 499 ms is discarded |
| Recorder.KeptRecordingIsComplete | voice_coding/recorder.py:47-53 | a kept recording has every buffered sample, in arrival order, and no other |
| Recorder.Recorder.constructor | voice_coding/recorder.py:18-22 | a new recorder has no frames, no stream and start time zero |
| Recorder.Recorder.Start | voice_coding/recorder.py:24-35 | start empties the buffer, records the time and opens the stream |
| Recorder.Recorder.Callback | voice_coding/recorder.py:61-64 | the callback appends the block at the end and changes nothing else, whatever the status |
| Recorder.Recorder.Stop | voice_coding/recorder.py:37-53 | stop returns the outcome for the buffered blocks and elapsed time, closes the stream and empties the buffer in every case |
| Recorder.Deliver | voice_coding/recorder.py:61-64 | blocks delivered one by one end up appended to the buffer in arrival order |
| Recorder.Session | voice_coding/recorder.py:24-53 | a start/stop cycle returns the outcome for exactly the blocks delivered during it |
| Recorder.TwoSessions | voice_coding/recorder.py:24-53 | a second cycle on the same recorder sees none of the first cycle's blocks |
| Recorder.StopWithoutStart | voice_coding/recorder.py:37-49 | stop on a recorder that was never started returns nothing |

## Left out

- Concurrency is not modelled: the `threading.Lock` in `start` and `stop`, and `_callback` appending without taking it.
- `sounddevice.InputStream` construction, device errors and the sample rate, channel count and dtype it is given are not modelled; the stream is a flag.
- WAV encoding by `soundfile` is left out: `Stop` returns `Wav(samples)` in place of the WAV bytes and `Discarded` in place of `b""`. The two stay distinct: blocks that are all empty, kept for 500 ms or more, still give a WAV file with no samples.
- `time.monotonic()` is replaced by a clock passed in as whole milliseconds, so the 0.5 s threshold becomes 500 ms.
- Samples are of an abstract type, not float32.
- The diagnostic `print` after a recording is not modelled.
- `\w`, `\s`, `str.lower` and `str.capitalize` are modelled for ASCII only. Non-ASCII characters are not covered: Unicode letters and digits, case mappings, and whitespace such as `\x85` and `\xa0`.
- `re.escape` is not modelled: no phrase of the table holds a regex metacharacter.
- voice_coding/learn_cmd.py is not part of this model: a call to an external generative service with file I/O.
- voice_coding/memory.py is not part of this model: it walks the file system.
- voice_coding/clipboard.py is not part of this model: subprocess calls and sleeps.
