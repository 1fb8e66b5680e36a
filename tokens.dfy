/** extract_telugu_tokens: the maximal runs of code points of the Telugu block
    U+0C00..U+0C7F in a text, in order.  The regular-expression engine is not
    modelled; the scan below finds the same runs one at a time. */
module Tokens {

  predicate IsTeluguChar(c: char) {
    '\U{0C00}' <= c <= '\U{0C7F}'
  }

  predicate AllTelugu(s: seq<char>) {
    forall k :: 0 <= k < |s| ==> IsTeluguChar(s[k])
  }

  predicate NoTelugu(s: seq<char>) {
    forall k :: 0 <= k < |s| ==> !IsTeluguChar(s[k])
  }

  /** The Telugu code points of a text, in order, everything else dropped. */
  function TeluguLetters(text: seq<char>): seq<char> {
    if text == [] then []
    else (if IsTeluguChar(text[0]) then [text[0]] else []) + TeluguLetters(text[1..])
  }

  /** All tokens written one after the other. */
  function Concat(tokens: seq<seq<char>>): seq<char> {
    if tokens == [] then [] else tokens[0] + Concat(tokens[1..])
  }

  /** Length of the longest prefix of Telugu code points. */
  function LeadingRun(text: seq<char>): (n: nat)
    ensures n <= |text| && AllTelugu(text[..n])
    ensures n < |text| ==> !IsTeluguChar(text[n])
  {
    if text == [] || !IsTeluguChar(text[0]) then 0 else 1 + LeadingRun(text[1..])
  }

  lemma {:induction false} TeluguLettersAppend(a: seq<char>, b: seq<char>)
    ensures TeluguLetters(a + b) == TeluguLetters(a) + TeluguLetters(b)
    decreases |a|
  {
    if a == [] {
      assert a + b == b;
    } else {
      assert (a + b)[0] == a[0] && (a + b)[1..] == a[1..] + b;
      TeluguLettersAppend(a[1..], b);
    }
  }

  lemma {:induction false} TeluguLettersOfRun(t: seq<char>)
    requires AllTelugu(t)
    ensures TeluguLetters(t) == t
    decreases |t|
  {
    if t != [] {
      TeluguLettersOfRun(t[1..]);
    }
  }

  /** extract_telugu_tokens: every token is a non-empty run of Telugu code
      points, and together the tokens hold exactly the text's Telugu code points. */
  function ExtractTeluguTokens(text: seq<char>): (tokens: seq<seq<char>>)
    ensures forall t :: t in tokens ==> |t| > 0 && AllTelugu(t)
    ensures Concat(tokens) == TeluguLetters(text)
    decreases |text|
  {
    if text == [] then []
    else if !IsTeluguChar(text[0]) then
      ExtractTeluguTokens(text[1..])
    else
      var n := LeadingRun(text);
      var rest := ExtractTeluguTokens(text[n..]);
      assert text == text[..n] + text[n..];
      TeluguLettersAppend(text[..n], text[n..]);
      TeluguLettersOfRun(text[..n]);
      [text[..n]] + rest
  }

  /** A text without Telugu code points has no tokens. */
  lemma {:induction false} NoTeluguNoTokens(g: seq<char>)
    requires NoTelugu(g)
    ensures ExtractTeluguTokens(g) == []
    decreases |g|
  {
    if g != [] {
      NoTeluguNoTokens(g[1..]);
    }
  }

  /** A non-empty text of Telugu code points only is one token. */
  lemma AllTeluguOneToken(t: seq<char>)
    requires |t| > 0 && AllTelugu(t)
    ensures ExtractTeluguTokens(t) == [t]
  {
    LeadingRunOfRun(t);
    assert t[..|t|] == t && t[|t|..] == [];
  }

  lemma {:induction false} LeadingRunOfRun(t: seq<char>)
    requires AllTelugu(t)
    ensures LeadingRun(t) == |t|
    decreases |t|
  {
    if t != [] {
      LeadingRunOfRun(t[1..]);
    }
  }

  /** The leading run stops at the first separator. */
  lemma {:induction false} LeadingRunBeforeSeparator(a: seq<char>, x: char, b: seq<char>)
    requires !IsTeluguChar(x)
    ensures LeadingRun(a + [x] + b) == LeadingRun(a)
    decreases |a|
  {
    if a != [] && IsTeluguChar(a[0]) {
      assert (a + [x] + b)[1..] == a[1..] + [x] + b;
      LeadingRunBeforeSeparator(a[1..], x, b);
    }
  }

  /** A non-Telugu code point separates tokens: the tokens of a + [x] + b are
      those of a followed by those of b.  With AllTeluguOneToken and
      NoTeluguNoTokens this pins the result down to the maximal runs. */
  lemma {:induction false} SeparatorSplitsTokens(a: seq<char>, x: char, b: seq<char>)
    requires !IsTeluguChar(x)
    ensures ExtractTeluguTokens(a + [x] + b) == ExtractTeluguTokens(a) + ExtractTeluguTokens(b)
    decreases |a|
  {
    var text := a + [x] + b;
    if a == [] {
      assert text == [x] + b && text[1..] == b;
    } else if !IsTeluguChar(a[0]) {
      assert text[1..] == a[1..] + [x] + b;
      SeparatorSplitsTokens(a[1..], x, b);
    } else {
      var n := LeadingRun(a);
      LeadingRunBeforeSeparator(a, x, b);
      assert text[..n] == a[..n];
      assert text[n..] == a[n..] + [x] + b;
      SeparatorSplitsTokens(a[n..], x, b);
    }
  }

  /** Two runs with a separator between them come out as two tokens. */
  lemma TwoRuns(t1: seq<char>, x: char, t2: seq<char>)
    requires |t1| > 0 && AllTelugu(t1) && |t2| > 0 && AllTelugu(t2) && !IsTeluguChar(x)
    ensures ExtractTeluguTokens(t1 + [x] + t2) == [t1, t2]
  {
    SeparatorSplitsTokens(t1, x, t2);
    AllTeluguOneToken(t1);
    AllTeluguOneToken(t2);
  }
}
