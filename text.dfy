/**
  ASCII character classes and the small string toolkit the transcript
  post-processor relies on: case mapping (str.lower, str.upper,
  str.capitalize), whitespace splitting (str.split() without arguments)
  and joining.  Python's `\w`, `\s` and case mapping are Unicode-aware;
  this model restricts them to ASCII.
*/
module Text {

  /** `\w`: an ASCII letter, digit or underscore. */
  predicate IsWordChar(c: char) {
    'a' <= c <= 'z' || 'A' <= c <= 'Z' || '0' <= c <= '9' || c == '_'
  }

  /** `\s` and the separators of str.split(), within ASCII: space, \t, \n,
      \v, \f, \r and the four information separators \x1c to \x1f. */
  predicate IsSpace(c: char) {
    || c == ' ' || c == '\t' || c == '\n' || c == '\U{000B}' || c == '\U{000C}' || c == '\r'
    || '\U{001C}' <= c <= '\U{001F}'
  }

  predicate IsUpper(c: char) { 'A' <= c <= 'Z' }

  predicate IsLower(c: char) { 'a' <= c <= 'z' }

  predicate IsLetter(c: char) { IsUpper(c) || IsLower(c) }

  function Lower(c: char): char {
    if IsUpper(c) then (c as int + 32) as char else c
  }

  function Upper(c: char): char {
    if IsLower(c) then (c as int - 32) as char else c
  }

  /** str.lower() */
  function LowerStr(s: string): (r: string)
    ensures |r| == |s|
  {
    seq(|s|, i requires 0 <= i < |s| => Lower(s[i]))
  }

  /** str.capitalize(): first character upper-cased, the rest lower-cased. */
  function Capitalize(w: string): (r: string)
    ensures |r| == |w|
  {
    if w == [] then [] else [Upper(w[0])] + LowerStr(w[1..])
  }

  /** Equal length and equal character by character once both are lower-cased;
      what re.IGNORECASE compares for ASCII text. */
  predicate SameIgnoringCase(a: string, b: string) {
    |a| == |b| && (a == [] || (Lower(a[0]) == Lower(b[0]) && SameIgnoringCase(a[1..], b[1..])))
  }

  /** Comparing ignoring case is comparing the lower-cased strings. */
  lemma {:induction false} SameIgnoringCaseIffLowerEqual(a: string, b: string)
    ensures SameIgnoringCase(a, b) <==> LowerStr(a) == LowerStr(b)
  {
    if |a| == |b| && a != [] {
      SameIgnoringCaseIffLowerEqual(a[1..], b[1..]);
      assert LowerStr(a) == [Lower(a[0])] + LowerStr(a[1..]);
      assert LowerStr(b) == [Lower(b[0])] + LowerStr(b[1..]);
      if LowerStr(a) == LowerStr(b) {
        assert LowerStr(a)[0] == LowerStr(b)[0];
        assert LowerStr(a)[1..] == LowerStr(b)[1..];
      }
    }
  }

  predicate NoSpace(s: string) {
    forall k :: 0 <= k < |s| ==> !IsSpace(s[k])
  }

  predicate AllWordChars(s: string) {
    forall k :: 0 <= k < |s| ==> IsWordChar(s[k])
  }

  predicate HasNoUpper(s: string) {
    forall k :: 0 <= k < |s| ==> !IsUpper(s[k])
  }

  /** Text without capitals is its own lower-case form. */
  lemma NoUpperIsLower(s: string)
    requires HasNoUpper(s)
    ensures LowerStr(s) == s
  {
    assert forall k :: 0 <= k < |s| ==> LowerStr(s)[k] == s[k];
  }

  /** A token as str.split() returns it: non-empty, free of whitespace. */
  predicate IsToken(w: string) {
    w != [] && NoSpace(w)
  }

  /** Concatenation of a list of strings, "".join(ws). */
  function Concat(ws: seq<string>): string {
    if ws == [] then [] else ws[0] + Concat(ws[1..])
  }

  /** sep.join(ws) for a one-character separator. */
  function JoinWith(sep: char, ws: seq<string>): string {
    if ws == [] then []
    else if |ws| == 1 then ws[0]
    else ws[0] + [sep] + JoinWith(sep, ws[1..])
  }

  function LowerAll(ws: seq<string>): (r: seq<string>)
    ensures |r| == |ws|
  {
    seq(|ws|, i requires 0 <= i < |ws| => LowerStr(ws[i]))
  }

  /** The characters of `s` that are not whitespace, in order. */
  function RemoveSpaces(s: string): string {
    if s == [] then []
    else if IsSpace(s[0]) then RemoveSpaces(s[1..])
    else [s[0]] + RemoveSpaces(s[1..])
  }

  /** Length of the leading run of non-whitespace characters. */
  function TokenLength(s: string): (n: nat)
    ensures n <= |s|
    ensures forall k :: 0 <= k < n ==> !IsSpace(s[k])
    ensures n == |s| || IsSpace(s[n])
  {
    if s == [] || IsSpace(s[0]) then 0 else 1 + TokenLength(s[1..])
  }

  /** str.split() with no argument: the maximal runs of non-whitespace. */
  function Words(s: string): (ws: seq<string>)
    ensures forall w :: w in ws ==> IsToken(w)
    decreases |s|
  {
    if s == [] then []
    else if IsSpace(s[0]) then Words(s[1..])
    else
      var n := TokenLength(s);
      [s[..n]] + Words(s[n..])
  }

  /** Splitting loses only the whitespace: the words, glued together, are the
      non-whitespace characters of the input in their original order. */
  lemma {:induction false} WordsKeepEveryOtherChar(s: string)
    ensures Concat(Words(s)) == RemoveSpaces(s)
    decreases |s|
  {
    if s == [] {
    } else if IsSpace(s[0]) {
      WordsKeepEveryOtherChar(s[1..]);
    } else {
      var n := TokenLength(s);
      WordsKeepEveryOtherChar(s[n..]);
      TokenHasNoSpace(s, n);
      assert s == s[..n] + s[n..];
      RemoveSpacesAppend(s[..n], s[n..]);
    }
  }

  lemma {:induction false} TokenHasNoSpace(s: string, n: nat)
    requires n <= |s|
    requires forall k :: 0 <= k < n ==> !IsSpace(s[k])
    ensures RemoveSpaces(s[..n]) == s[..n]
  {
    if n > 0 {
      assert s[..n][1..] == s[1..][..n - 1];
      TokenHasNoSpace(s[1..], n - 1);
    }
  }

  lemma {:induction false} RemoveSpacesAppend(a: string, b: string)
    ensures RemoveSpaces(a + b) == RemoveSpaces(a) + RemoveSpaces(b)
  {
    if a == [] {
      assert a + b == b;
    } else {
      assert (a + b)[0] == a[0];
      assert (a + b)[1..] == a[1..] + b;
      RemoveSpacesAppend(a[1..], b);
    }
  }

  /** Splitting undoes joining with single spaces: Words is the inverse of
      " ".join on lists of tokens. */
  lemma {:induction false} WordsOfJoin(ws: seq<string>)
    requires forall w :: w in ws ==> IsToken(w)
    ensures Words(JoinWith(' ', ws)) == ws
  {
    if ws == [] {
    } else if |ws| == 1 {
      WordsOfToken(ws[0], []);
      assert ws[0] + [] == ws[0];
      assert ws == [ws[0]];
    } else {
      var rest := JoinWith(' ', ws[1..]);
      WordsOfJoin(ws[1..]);
      WordsOfToken(ws[0], [' '] + rest);
      assert ([' '] + rest)[1..] == rest;
      assert ws[0] + [' '] + rest == ws[0] + ([' '] + rest);
    }
  }

  /** A token followed by nothing or by whitespace is split off whole. */
  lemma {:induction false} WordsOfToken(w: string, rest: string)
    requires IsToken(w)
    requires rest == [] || IsSpace(rest[0])
    ensures Words(w + rest) == [w] + Words(rest)
  {
    var s := w + rest;
    TokenLengthOf(w, rest);
    assert s[..|w|] == w;
    assert s[|w|..] == rest;
  }

  lemma {:induction false} TokenLengthOf(w: string, rest: string)
    requires NoSpace(w)
    requires rest == [] || IsSpace(rest[0])
    ensures TokenLength(w + rest) == |w|
  {
    if w != [] {
      assert (w + rest)[1..] == w[1..] + rest;
      TokenLengthOf(w[1..], rest);
    }
  }

  /** Words taken from word and whitespace characters hold word characters only. */
  lemma {:induction false} WordsOfWordText(s: string)
    requires forall k :: 0 <= k < |s| ==> IsWordChar(s[k]) || IsSpace(s[k])
    ensures forall w :: w in Words(s) ==> AllWordChars(w)
    decreases |s|
  {
    if s != [] {
      if IsSpace(s[0]) {
        WordsOfWordText(s[1..]);
      } else {
        var n := TokenLength(s);
        WordsOfWordText(s[n..]);
        assert Words(s) == [s[..n]] + Words(s[n..]);
      }
    }
  }

  // ---------------------------------------------------------------------
  // Words as `\b` sees them: maximal runs of word characters

  /** s[i..i + n] is a whole word of s: a non-empty run of word characters
      with no word character just before or just after it. */
  predicate WordAt(s: string, i: nat, n: nat) {
    && 0 < n && i + n <= |s|
    && (forall k :: i <= k < i + n ==> IsWordChar(s[k]))
    && (i == 0 || !IsWordChar(s[i - 1]))
    && (i + n == |s| || !IsWordChar(s[i + n]))
  }

  /** The leading run of word characters of `p`: for a phrase, its first word. */
  function FirstWord(p: string): (r: string)
    ensures |r| <= |p| && r == p[..|r|]
    ensures AllWordChars(r)
    ensures |r| == |p| || !IsWordChar(p[|r|])
  {
    if p == [] || !IsWordChar(p[0]) then [] else [p[0]] + FirstWord(p[1..])
  }

  /** A prefix of word characters followed by a non-word character, or by
      the end, is the first word. */
  lemma {:induction false} FirstWordIs(p: string, w: string)
    requires |w| <= |p| && p[..|w|] == w && AllWordChars(w)
    requires |w| == |p| || !IsWordChar(p[|w|])
    ensures FirstWord(p) == w
  {
    var r := FirstWord(p);
    assert forall k :: 0 <= k < |w| ==> w[k] == p[k];
    assert forall k :: 0 <= k < |r| ==> r[k] == p[k];
  }

  /** Every whole word of `s`, lower-cased, is in `ws`. */
  predicate WordsIn(s: string, ws: set<string>) {
    forall i, n :: 0 <= i < |s| && 0 < n <= |s| - i && WordAt(s, i, n) ==> LowerStr(s[i..i + n]) in ws
  }

  /** A whole word of a + [c] + b, for a separator c that is not a word
      character, lies entirely in a or entirely in b, and is a whole word
      there too. */
  lemma {:induction false} WordAcross(a: string, c: char, b: string, i: nat, n: nat)
    requires !IsWordChar(c) && WordAt(a + [c] + b, i, n)
    ensures || (i + n <= |a| && WordAt(a, i, n) && (a + [c] + b)[i..i + n] == a[i..i + n])
            || (|a| < i && WordAt(b, i - |a| - 1, n) && (a + [c] + b)[i..i + n] == b[i - |a| - 1..i - |a| - 1 + n])
  {
    var s := a + [c] + b;
    assert s[|a|] == c;
    if i <= |a| {
      assert i + n <= |a|;
      assert s[i..i + n] == a[i..i + n];
      forall k | i <= k < i + n ensures IsWordChar(a[k]) {
        assert a[k] == s[k];
      }
      if i + n < |a| {
        assert s[i + n] == a[i + n];
      }
      if i > 0 {
        assert s[i - 1] == a[i - 1];
      }
    } else {
      var j := i - |a| - 1;
      assert s[i..i + n] == b[j..j + n];
      forall k | j <= k < j + n ensures IsWordChar(b[k]) {
        assert b[k] == s[k + |a| + 1];
      }
      if j > 0 {
        assert s[i - 1] == b[j - 1];
      }
      if j + n < |b| {
        assert s[i + n] == b[j + n];
      }
    }
  }

  /** The words of text joined at a non-word separator are the words of the
      two parts. */
  lemma {:induction false} WordsInAcross(a: string, c: char, b: string, ws: set<string>)
    requires !IsWordChar(c) && WordsIn(a, ws) && WordsIn(b, ws)
    ensures WordsIn(a + [c] + b, ws)
  {
    forall i, n | 0 <= i < |a + [c] + b| && 0 < n <= |a + [c] + b| - i && WordAt(a + [c] + b, i, n) ensures LowerStr((a + [c] + b)[i..i + n]) in ws {
      WordAcross(a, c, b, i, n);
    }
  }

  /** A run of word characters is its own only word. */
  lemma {:induction false} WordIsWhole(w: string, i: nat, n: nat)
    requires AllWordChars(w) && WordAt(w, i, n)
    ensures i == 0 && n == |w|
  {
  }

  /** A text of word characters has exactly itself as its word. */
  lemma {:induction false} WordsInWord(w: string, ws: set<string>)
    requires AllWordChars(w) && LowerStr(w) in ws
    ensures WordsIn(w, ws)
  {
    forall i, n | 0 <= i < |w| && 0 < n <= |w| - i && WordAt(w, i, n) ensures LowerStr(w[i..i + n]) in ws {
      WordIsWhole(w, i, n);
      assert w[i..i + n] == w;
    }
  }
}
