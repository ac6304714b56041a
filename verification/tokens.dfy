/**
 * Splitting an input line into words and lower-casing a word: the two
 * string operations `read_command` applies to its input before it looks at
 * the command keyword.
 */
module Tokens {

  /**
   * Unicode's White_Space property, the test `char::is_whitespace` applies.
   * It includes the ASCII whitespace `u8::is_ascii_whitespace` knows and no
   * printable ASCII character.
   */
  predicate IsWhitespace(c: char): (b: bool)
    ensures c in {' ', '\t', '\n', '\U{000C}', '\r'} ==> b
    ensures '!' <= c <= '~' ==> !b
  {
    || '\U{0009}' <= c <= '\U{000D}'
    || c == ' '
    || c == '\U{0085}'
    || c == '\U{00A0}'
    || c == '\U{1680}'
    || '\U{2000}' <= c <= '\U{200A}'
    || c == '\U{2028}'
    || c == '\U{2029}'
    || c == '\U{202F}'
    || c == '\U{205F}'
    || c == '\U{3000}'
  }

  /** What `split_whitespace` can yield: a non-empty run without whitespace. */
  ghost predicate IsToken(t: string) {
    |t| > 0 && forall i :: 0 <= i < |t| ==> !IsWhitespace(t[i])
  }

  /** The longest prefix of `s` that holds no whitespace. */
  function Word(s: string): (w: string)
    ensures |w| <= |s| && w == s[..|w|]
    ensures forall i :: 0 <= i < |w| ==> !IsWhitespace(w[i])
    ensures |w| < |s| ==> IsWhitespace(s[|w|])
  {
    if s == [] || IsWhitespace(s[0]) then [] else [s[0]] + Word(s[1..])
  }

  /** The words of `s`, in order, as `str::split_whitespace` yields them. */
  function Split(s: string): (tokens: seq<string>)
    ensures forall k :: 0 <= k < |tokens| ==> IsToken(tokens[k])
    decreases |s|
  {
    if s == [] then []
    else if IsWhitespace(s[0]) then Split(s[1..])
    else
      var w := Word(s);
      assert |w| > 0;
      [w] + Split(s[|w|..])
  }

  /** ASCII lower-casing of one character. */
  function LowerChar(c: char): char {
    if 'A' <= c <= 'Z' then (c as int + 32) as char else c
  }

  /**
   * ASCII lower-casing, standing for `str::to_lowercase`: same length, no
   * ASCII capital left, every other character unchanged.
   */
  function Lower(s: string): (r: string)
    ensures |r| == |s|
    ensures forall i :: 0 <= i < |s| ==> !('A' <= r[i] <= 'Z')
    ensures forall i :: 0 <= i < |s| && !('A' <= s[i] <= 'Z') ==> r[i] == s[i]
    ensures forall i :: 0 <= i < |s| && 'A' <= s[i] <= 'Z' ==> r[i] as int == s[i] as int + 32
  {
    seq(|s|, i requires 0 <= i < |s| => LowerChar(s[i]))
  }

  /** Lower-casing twice is lower-casing once. */
  lemma LowerIdempotent(s: string)
    ensures Lower(Lower(s)) == Lower(s)
  {
  }

  /**
   * A word lower-cases to a lower-case ASCII keyword exactly when it spells
   * the keyword with each letter in either case.
   */
  lemma LowerMatches(word: string, keyword: string)
    requires forall i :: 0 <= i < |keyword| ==> 'a' <= keyword[i] <= 'z'
    ensures Lower(word) == keyword <==>
              && |word| == |keyword|
              && forall i :: 0 <= i < |word| ==>
                   word[i] == keyword[i] || word[i] as int + 32 == keyword[i] as int
  {
    if |word| == |keyword| && forall i :: 0 <= i < |word| ==>
         word[i] == keyword[i] || word[i] as int + 32 == keyword[i] as int {
      assert forall i :: 0 <= i < |word| ==> Lower(word)[i] == keyword[i];
    }
  }

  /** The tokens separated by single spaces: a line a user could type. */
  function Unwords(tokens: seq<string>): string {
    if tokens == [] then ""
    else if |tokens| == 1 then tokens[0]
    else tokens[0] + " " + Unwords(tokens[1..])
  }

  /** A word ends at the first whitespace, whatever follows it. */
  lemma {:induction false} WordExtend(s: string, t: string)
    requires forall i :: 0 <= i < |s| ==> !IsWhitespace(s[i])
    requires t == [] || IsWhitespace(t[0])
    ensures Word(s + t) == s
    decreases |s|
  {
    if s != [] {
      assert (s + t)[1..] == s[1..] + t;
      WordExtend(s[1..], t);
      assert s == [s[0]] + s[1..];
    }
  }

  /** Splitting the line built from some tokens gives those tokens back. */
  lemma {:induction false} SplitUnwords(tokens: seq<string>)
    requires forall k :: 0 <= k < |tokens| ==> IsToken(tokens[k])
    ensures Split(Unwords(tokens)) == tokens
    decreases |tokens|
  {
    if |tokens| == 1 {
      var t := tokens[0];
      WordExtend(t, []);
      assert t + [] == t;
      assert t[|t|..] == [];
    } else if |tokens| > 1 {
      var t, rest := tokens[0], Unwords(tokens[1..]);
      var line := t + " " + rest;
      assert line == t + (" " + rest);
      WordExtend(t, " " + rest);
      assert line[|t|..] == " " + rest;
      assert (" " + rest)[1..] == rest;
      SplitUnwords(tokens[1..]);
      assert tokens == [t] + tokens[1..];
    }
  }

  /** A line splits into no tokens exactly when it is blank. */
  lemma {:induction false} BlankLine(s: string)
    ensures Split(s) == [] <==> forall i :: 0 <= i < |s| ==> IsWhitespace(s[i])
    decreases |s|
  {
    if s != [] && IsWhitespace(s[0]) {
      BlankLine(s[1..]);
      assert forall i :: 1 <= i < |s| ==> s[i] == s[1..][i - 1];
    }
  }

  /** Whitespace at the end of a line, such as its newline, adds no token. */
  lemma {:induction false} SplitTrailingWhitespace(s: string, c: char)
    requires IsWhitespace(c)
    ensures Split(s + [c]) == Split(s)
    decreases |s|
  {
    if s == [] {
      assert [c][1..] == [];
    } else if IsWhitespace(s[0]) {
      assert (s + [c])[1..] == s[1..] + [c];
      SplitTrailingWhitespace(s[1..], c);
    } else {
      var w := Word(s);
      var rest := s[|w|..];
      assert s == w + rest;
      assert s + [c] == w + (rest + [c]);
      WordExtend(w, rest + [c]);
      WordExtend(w, rest);
      assert (s + [c])[|w|..] == rest + [c];
      SplitTrailingWhitespace(rest, c);
    }
  }
}
