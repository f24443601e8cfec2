/**
  Term extraction shared by ingestion and query: the text is split on runs of
  whitespace (Python's `str.split()` with no argument) and every piece is then
  stripped of surrounding whitespace (`str.strip()`).
 */
module Tokenizer {

  /** The whitespace characters: space, tab, line feed, carriage return,
      vertical tab and form feed. */
  predicate IsWhitespace(c: char)
  {
    c == ' ' || c == '\t' || c == '\n' || c == '\r' || c == '\U{B}' || c == '\U{C}'
  }

  /** A word is a non-empty run of non-whitespace characters. */
  predicate IsWord(w: string)
  {
    |w| > 0 && forall i :: 0 <= i < |w| ==> !IsWhitespace(w[i])
  }

  predicate AllWhitespace(s: string)
  {
    forall i :: 0 <= i < |s| ==> IsWhitespace(s[i])
  }

  /** The length of the longest prefix of `s` that holds no whitespace. */
  function WordLength(s: string): (n: nat)
    ensures n <= |s|
    ensures forall k :: 0 <= k < n ==> !IsWhitespace(s[k])
    ensures n < |s| ==> IsWhitespace(s[n])
  {
    if |s| == 0 || IsWhitespace(s[0]) then 0 else 1 + WordLength(s[1..])
  }

  /** `s.split()`: the maximal whitespace-free pieces of `s`, left to right;
      leading, trailing and repeated whitespace yields no empty piece. */
  function Split(s: string): (words: seq<string>)
    ensures forall i :: 0 <= i < |words| ==> IsWord(words[i])
    decreases |s|
  {
    if |s| == 0 then []
    else if IsWhitespace(s[0]) then Split(s[1..])
    else
      var n := WordLength(s);
      [s[..n]] + Split(s[n..])
  }

  /** `s.lstrip()`: drops the leading whitespace and nothing else. */
  function TrimLeft(s: string): (t: string)
    ensures |t| <= |s| && t == s[|s| - |t|..]
    ensures forall k :: 0 <= k < |s| - |t| ==> IsWhitespace(s[k])
    ensures t == [] || !IsWhitespace(t[0])
  {
    if |s| > 0 && IsWhitespace(s[0]) then TrimLeft(s[1..]) else s
  }

  /** `s.rstrip()`: drops the trailing whitespace and nothing else. */
  function TrimRight(s: string): (t: string)
    ensures |t| <= |s| && t == s[..|t|]
    ensures forall k :: |t| <= k < |s| ==> IsWhitespace(s[k])
    ensures t == [] || !IsWhitespace(t[|t| - 1])
  {
    if |s| > 0 && IsWhitespace(s[|s| - 1]) then TrimRight(s[..|s| - 1]) else s
  }

  /** `s.strip()`: neither end of the result is whitespace, and a word is
      left as it is. */
  function Strip(s: string): (t: string)
    ensures t == [] || (!IsWhitespace(t[0]) && !IsWhitespace(t[|t| - 1]))
    ensures IsWord(s) ==> t == s
  {
    TrimRight(TrimLeft(s))
  }

  /** `[word.strip() for word in text.split()]`: the terms of a text. Every
      term is a word, and stripping the pieces of the split changes none of
      them. */
  function Tokens(text: string): (terms: seq<string>)
    ensures terms == Split(text)
    ensures forall i :: 0 <= i < |terms| ==> IsWord(terms[i])
  {
    var words := Split(text);
    seq(|words|, i requires 0 <= i < |words| => Strip(words[i]))
  }

  /** A text has no term exactly when it is empty or all whitespace. */
  lemma {:induction false} SplitEmptyIff(s: string)
    ensures Split(s) == [] <==> AllWhitespace(s)
    decreases |s|
  {
    if |s| > 0 && IsWhitespace(s[0]) {
      SplitEmptyIff(s[1..]);
      if AllWhitespace(s[1..]) {
        forall i | 0 <= i < |s| ensures IsWhitespace(s[i]) {
          if i > 0 { assert s[i] == s[1..][i - 1]; }
        }
      } else {
        var i :| 0 <= i < |s[1..]| && !IsWhitespace(s[1..][i]);
        assert s[i + 1] == s[1..][i];
      }
    }
  }

  /** A word ends at the first whitespace character, wherever text follows. */
  lemma WordLengthBeforeSep(a: string, c: char, b: string)
    requires IsWhitespace(c)
    ensures WordLength(a + [c] + b) == WordLength(a)
  {
    var s := a + [c] + b;
    assert forall k :: 0 <= k < |a| ==> s[k] == a[k];
    assert s[|a|] == c;
  }

  /** Splitting at a whitespace character: the words of `a`, then those of
      `b`. With `SplitWordThen` and `SplitEmptyIff` this fixes `Split` on
      every text, whatever its leading, trailing or repeated whitespace. */
  lemma {:induction false} SplitSep(a: string, c: char, b: string)
    requires IsWhitespace(c)
    ensures Split(a + [c] + b) == Split(a) + Split(b)
    decreases |a|
  {
    var s := a + [c] + b;
    if |a| == 0 {
      assert s[1..] == b;
    } else if IsWhitespace(a[0]) {
      assert s[1..] == a[1..] + [c] + b;
      SplitSep(a[1..], c, b);
    } else {
      var n := WordLength(a);
      WordLengthBeforeSep(a, c, b);
      assert s[..n] == a[..n];
      assert s[n..] == a[n..] + [c] + b;
      SplitSep(a[n..], c, b);
    }
  }

  /** The inverse of `Split`: words joined by single spaces. */
  function Join(words: seq<string>): string
  {
    if |words| == 0 then ""
    else if |words| == 1 then words[0]
    else words[0] + " " + Join(words[1..])
  }

  /** A word followed by nothing or by whitespace is split off whole. */
  lemma SplitWordThen(w: string, rest: string)
    requires IsWord(w)
    requires rest == [] || IsWhitespace(rest[0])
    ensures Split(w + rest) == [w] + Split(rest)
  {
    var s := w + rest;
    assert forall k :: 0 <= k < |w| ==> s[k] == w[k];
    assert |w| < |s| ==> s[|w|] == rest[0];
    assert WordLength(s) == |w|;
    assert s[..|w|] == w && s[|w|..] == rest;
  }

  /** Splitting the words back out of their join gives the same words. */
  lemma {:induction false} SplitJoin(words: seq<string>)
    requires forall i :: 0 <= i < |words| ==> IsWord(words[i])
    ensures Split(Join(words)) == words
  {
    if |words| == 1 {
      SplitWordThen(words[0], "");
      assert words[0] + "" == words[0];
    } else if |words| > 1 {
      var tail := Join(words[1..]);
      var rest := " " + tail;
      assert Join(words) == words[0] + rest;
      SplitWordThen(words[0], rest);
      assert Split(rest) == Split(tail) by {
        assert rest[1..] == tail;
      }
      SplitJoin(words[1..]);
    }
  }

  /** Punctuation stays part of a term: the query "search engines." has the
      terms "search" and "engines.". */
  lemma TokensKeepPunctuation()
    ensures Tokens("search engines.") == ["search", "engines."]
  {
    assert IsWord("search") && IsWord("engines.");
    assert Join(["search", "engines."]) == "search engines." by {
      assert Join(["engines."]) == "engines.";
    }
    SplitJoin(["search", "engines."]);
  }
}
