/**
 * BooleanQueryParser.tokenize: a query string becomes a list of tokens.
 * Whitespace separates tokens, each parenthesis is a token of its own, and
 * every other character extends the current token.
 */
module QueryParser {
  import opened Base

  /**
   * Character.isWhitespace: the space separators other than the no-break
   * spaces U+00A0, U+2007 and U+202F, the line and paragraph separators,
   * and the controls U+0009-U+000D and U+001C-U+001F. The classes are those
   * of Unicode 6.3 and later, which Java 9 onward uses; under Java 8
   * (Unicode 6.2) U+180E MONGOLIAN VOWEL SEPARATOR is a space separator and
   * so whitespace as well.
   */
  predicate IsWhitespace(c: char)
  {
    var n := c as int;
    (9 <= n <= 13) || (28 <= n <= 32) || n == 0x1680 || (0x2000 <= n <= 0x200A && n != 0x2007)
    || n == 0x2028 || n == 0x2029 || n == 0x205F || n == 0x3000
  }

  predicate IsParen(c: char)
  {
    c == '(' || c == ')'
  }

  /** A character that goes into the current token. */
  predicate IsWordChar(c: char)
  {
    !IsWhitespace(c) && !IsParen(c)
  }

  predicate AllWordChars(w: string)
  {
    forall k :: 0 <= k < |w| ==> IsWordChar(w[k])
  }

  /** The length of the run of word characters that starts q. */
  function RunLength(q: string): (n: nat)
    ensures n <= |q| && AllWordChars(q[..n])
    ensures n == |q| || !IsWordChar(q[n])
    ensures |q| > 0 && IsWordChar(q[0]) ==> n >= 1
  {
    if |q| == 0 || !IsWordChar(q[0]) then 0
    else
      var n := 1 + RunLength(q[1..]);
      assert forall k :: 1 <= k < n ==> q[..n][k] == q[1..][..n - 1][k - 1];
      n
  }

  /**
   * The tokens of q, read from the left: whitespace is skipped, a
   * parenthesis is a token, and otherwise the longest run of word
   * characters is.
   */
  function Tokens(q: string): seq<string>
    decreases |q|
  {
    if |q| == 0 then []
    else if IsWhitespace(q[0]) then Tokens(q[1..])
    else if IsParen(q[0]) then [[q[0]]] + Tokens(q[1..])
    else
      var n := RunLength(q);
      [q[..n]] + Tokens(q[n..])
  }

  /** A token as tokenize yields it: a lone parenthesis, or a non-empty run of word characters. */
  predicate WellFormed(t: string)
  {
    t == "(" || t == ")" || (|t| > 0 && AllWordChars(t))
  }

  /** The characters of q other than whitespace. */
  function Strip(q: string): string
  {
    if |q| == 0 then []
    else if IsWhitespace(q[0]) then Strip(q[1..])
    else [q[0]] + Strip(q[1..])
  }

  /** The tokens separated by single spaces: a query that tokenize reads back into them. */
  function Join(ts: seq<string>): string
  {
    if |ts| == 0 then [] else if |ts| == 1 then ts[0] else ts[0] + " " + Join(ts[1..])
  }

  /** A run of word characters followed by a non-word character is one token, and the rest is read from there. */
  lemma {:induction false} RunOf(w: string, rest: string)
    requires AllWordChars(w)
    requires |rest| == 0 || !IsWordChar(rest[0])
    ensures RunLength(w + rest) == |w|
    decreases |w|
  {
    if |w| > 0 {
      assert (w + rest)[1..] == w[1..] + rest;
      RunOf(w[1..], rest);
    }
  }

  /** Flushing the buffer: the buffer is a token of its own when the next character does not extend it. */
  lemma Flush(current: string, rest: string)
    requires AllWordChars(current)
    requires |rest| == 0 || !IsWordChar(rest[0])
    ensures Tokens(current + rest) == (if |current| > 0 then [current] else []) + Tokens(rest)
  {
    if |current| > 0 {
      var q := current + rest;
      RunOf(current, rest);
      assert q[..|current|] == current && q[|current|..] == rest;
    } else {
      assert current + rest == rest;
    }
  }

  /** A whitespace character is skipped and a parenthesis is a token. */
  lemma LoneChar(ch: char, rest: string)
    requires !IsWordChar(ch)
    ensures IsWhitespace(ch) ==> Tokens([ch] + rest) == Tokens(rest)
    ensures IsParen(ch) ==> Tokens([ch] + rest) == [[ch]] + Tokens(rest)
  {
    assert ([ch] + rest)[0] == ch && ([ch] + rest)[1..] == rest;
  }

  /** A whitespace character at i flushes the buffer and is skipped. */
  lemma ReadSpace(tokens: seq<string>, current: string, query: string, i: nat)
    requires AllWordChars(current) && i < |query| && IsWhitespace(query[i])
    ensures tokens + Tokens(current + query[i..])
      == (if |current| > 0 then tokens + [current] else tokens) + Tokens([] + query[i + 1..])
  {
    var rest := query[i..];
    DropNext(query, i);
    Flush(current, rest);
    LoneChar(query[i], query[i + 1..]);
    assert [] + query[i + 1..] == query[i + 1..];
  }

  /** A parenthesis at i flushes the buffer and is a token. */
  lemma ReadParen(tokens: seq<string>, current: string, query: string, i: nat)
    requires AllWordChars(current) && i < |query| && IsParen(query[i])
    ensures tokens + Tokens(current + query[i..])
      == (if |current| > 0 then tokens + [current] else tokens) + [[query[i]]] + Tokens([] + query[i + 1..])
  {
    DropNext(query, i);
    ParenNext(tokens, current, query[i], query[i + 1..]);
  }

  lemma ParenNext(tokens: seq<string>, current: string, c: char, later: string)
    requires AllWordChars(current) && IsParen(c)
    ensures tokens + Tokens(current + ([c] + later))
      == (if |current| > 0 then tokens + [current] else tokens) + [[c]] + Tokens([] + later)
  {
    Flush(current, [c] + later);
    LoneChar(c, later);
    assert [] + later == later;
    if |current| > 0 {
      Regroup(tokens, [current], [[c]], Tokens(later));
    } else {
      Regroup(tokens, [], [[c]], Tokens(later));
    }
  }

  /** A word character at i extends the buffer. */
  lemma ReadWord(current: string, query: string, i: nat)
    requires i < |query|
    ensures current + query[i..] == (current + [query[i]]) + query[i + 1..]
  {
    DropNext(query, i);
  }

  /** tokenize: one pass over the characters with a reusable buffer for the current token. */
  method Tokenize(query: string) returns (tokens: seq<string>)
    ensures tokens == Tokens(query)
  {
    tokens := [];
    var current: string := [];
    assert current + query[0..] == query;
    for i := 0 to |query|
      invariant AllWordChars(current)
      invariant tokens + Tokens(current + query[i..]) == Tokens(query)
    {
      var ch := query[i];
      if IsWhitespace(ch) {
        ReadSpace(tokens, current, query, i);
        if |current| > 0 {
          tokens := tokens + [current];
        }
        current := [];
      } else if IsParen(ch) {
        ReadParen(tokens, current, query, i);
        if |current| > 0 {
          tokens := tokens + [current];
        }
        current := [];
        tokens := tokens + [[ch]];
      } else {
        ReadWord(current, query, i);
        current := current + [ch];
      }
    }
    Flush(current, []);
    assert current + query[|query|..] == current + [];
    if |current| > 0 {
      tokens := tokens + [current];
    }
  }

  /** No token is empty or holds whitespace, and a token holding a parenthesis is that parenthesis alone. */
  lemma {:induction false} TokensWellFormed(q: string)
    ensures forall i :: 0 <= i < |Tokens(q)| ==> WellFormed(Tokens(q)[i])
    decreases |q|
  {
    if |q| > 0 {
      if IsWhitespace(q[0]) {
        TokensWellFormed(q[1..]);
      } else if IsParen(q[0]) {
        TokensWellFormed(q[1..]);
      } else {
        TokensWellFormed(q[RunLength(q)..]);
      }
    }
  }

  /** The tokens spell the query with its whitespace removed. */
  lemma {:induction false} TokensSpellQuery(q: string)
    ensures Concat(Tokens(q)) == Strip(q)
    decreases |q|
  {
    if |q| > 0 {
      if IsWhitespace(q[0]) {
        TokensSpellQuery(q[1..]);
      } else if IsParen(q[0]) {
        TokensSpellQuery(q[1..]);
        assert Tokens(q)[1..] == Tokens(q[1..]);
      } else {
        var n := RunLength(q);
        TokensSpellQuery(q[n..]);
        assert Tokens(q)[1..] == Tokens(q[n..]);
        StripWord(q[..n], q[n..]);
        assert q[..n] + q[n..] == q;
      }
    }
  }

  /** A string without whitespace is its own stripped form, in front of whatever follows. */
  lemma {:induction false} StripWord(w: string, rest: string)
    requires AllWordChars(w)
    ensures Strip(w + rest) == w + Strip(rest)
    decreases |w|
  {
    if |w| > 0 {
      assert IsWordChar(w[0]) && AllWordChars(w[1..]);
      assert (w + rest)[0] == w[0] && (w + rest)[1..] == w[1..] + rest;
      StripWord(w[1..], rest);
      calc {
        Strip(w + rest);
        [w[0]] + Strip(w[1..] + rest);
        [w[0]] + (w[1..] + Strip(rest));
        ([w[0]] + w[1..]) + Strip(rest);
        { assert [w[0]] + w[1..] == w; }
        w + Strip(rest);
      }
    } else {
      assert w + rest == rest && w + Strip(rest) == Strip(rest);
    }
  }

  /** Tokenizing well-formed tokens joined by spaces gives them back. */
  lemma {:induction false} TokensOfJoin(ts: seq<string>)
    requires forall i :: 0 <= i < |ts| ==> WellFormed(ts[i])
    ensures Tokens(Join(ts)) == ts
    decreases |ts|
  {
    if |ts| == 1 {
      TokenThen(ts[0], []);
      assert ts[0] + [] == ts[0] && ts == [ts[0]];
    } else if |ts| > 1 {
      var rest := Join(ts[1..]);
      TokensOfJoin(ts[1..]);
      assert ts[0] + " " + rest == ts[0] + ([' '] + rest);
      TokenThen(ts[0], [' '] + rest);
      assert ([' '] + rest)[1..] == rest;
    }
  }

  /** A well-formed token followed by a non-word character reads as that token, then the rest. */
  lemma TokenThen(t: string, rest: string)
    requires WellFormed(t)
    requires |rest| == 0 || !IsWordChar(rest[0])
    ensures Tokens(t + rest) == [t] + Tokens(rest)
  {
    if t == "(" || t == ")" {
      assert (t + rest)[0] == t[0] && (t + rest)[1..] == rest;
      assert [(t + rest)[0]] == t;
    } else {
      Flush(t, rest);
    }
  }
}
