/**
 * Forward maximum matching, stated on a dictionary given as a set of words.
 *
 * At each step the text still to segment is cut to its first maxLen
 * characters (the window); the token is the longest non-empty prefix of the
 * window that is a dictionary word, or the window's first character when
 * there is none.
 */
module MaxMatch {
  import opened Base

  function Min(a: int, b: int): int
  {
    if a <= b then a else b
  }

  /** The longest of s[..1], ..., s[..k] that is in W. */
  function LongestIn(W: set<string>, s: string, k: nat): (r: Option<string>)
    requires k <= |s|
    ensures r.Some? ==> 1 <= |r.value| <= k && r.value == s[..|r.value|] && r.value in W
    ensures r.Some? ==> forall j :: |r.value| < j <= k ==> s[..j] !in W
    ensures r.None? ==> forall j :: 1 <= j <= k ==> s[..j] !in W
  {
    if k == 0 then None
    else if s[..k] in W then Some(s[..k])
    else LongestIn(W, s, k - 1)
  }

  /** The longest non-empty prefix of s that is a word of W, if any. */
  function LongestWord(W: set<string>, s: string): Option<string>
  {
    LongestIn(W, s, |s|)
  }

  /** LongestWord is the only longest word prefix: any prefix with its properties is it. */
  lemma LongestWordUnique(W: set<string>, s: string, p: string)
    requires 1 <= |p| <= |s| && p == s[..|p|] && p in W
    requires forall j :: |p| < j <= |s| ==> s[..j] !in W
    ensures LongestWord(W, s) == Some(p)
  {
  }

  /** A non-empty word of W that starts s is found, and so is nothing shorter. */
  lemma LongestWordFinds(W: set<string>, s: string, w: string)
    requires w in W && 1 <= |w| <= |s| && s[..|w|] == w
    ensures LongestWord(W, s).Some? && |LongestWord(W, s).value| >= |w|
  {
  }

  /** Prefixes past k that are not words do not change the answer. */
  lemma {:induction false} LongestInSkip(W: set<string>, s: string, i: nat, n: nat)
    requires i <= n <= |s|
    requires forall j :: i < j <= n ==> s[..j] !in W
    ensures LongestIn(W, s, n) == LongestIn(W, s, i)
    decreases n
  {
    if i < n {
      LongestInSkip(W, s, i, n - 1);
    }
  }

  /** The window of the text s: its first maxLen characters. */
  function Window(s: string, maxLen: nat): (w: string)
    ensures |w| == Min(maxLen, |s|) && w == s[..|w|]
  {
    s[..Min(maxLen, |s|)]
  }

  /** The next token of a non-empty text s. */
  function Token(W: set<string>, s: string, maxLen: nat): (t: string)
    requires |s| > 0 && maxLen >= 1
    ensures 1 <= |t| <= maxLen && |t| <= |s| && t == s[..|t|]
    ensures t in W || |t| == 1
  {
    var cur := Window(s, maxLen);
    match LongestWord(W, cur)
    case Some(p) => p
    case None => cur[..1]
  }

  /** The token is greedy: it is a word no longer window prefix beats, or no window prefix is a word. */
  lemma TokenGreedy(W: set<string>, s: string, maxLen: nat)
    requires |s| > 0 && maxLen >= 1
    ensures var t := Token(W, s, maxLen);
      (t in W && forall j :: |t| < j <= Min(maxLen, |s|) ==> s[..j] !in W) ||
      (t == s[..1] && forall j :: 1 <= j <= Min(maxLen, |s|) ==> s[..j] !in W)
  {
    var cur := Window(s, maxLen);
    assert forall j :: 0 <= j <= |cur| ==> cur[..j] == s[..j];
  }

  /** fmm: the tokens of s, one greedy match after the other. */
  function Segment(W: set<string>, s: string, maxLen: nat): seq<string>
    requires maxLen >= 1
    decreases |s|
  {
    if |s| == 0 then []
    else
      var t := Token(W, s, maxLen);
      [t] + Segment(W, s[|t|..], maxLen)
  }

  /** The tokens spell the text back. */
  lemma {:induction false} SegmentConcat(W: set<string>, s: string, maxLen: nat)
    requires maxLen >= 1
    ensures Concat(Segment(W, s, maxLen)) == s
    decreases |s|
  {
    if |s| > 0 {
      var t := Token(W, s, maxLen);
      SegmentConcat(W, s[|t|..], maxLen);
      var ts := Segment(W, s, maxLen);
      assert ts[1..] == Segment(W, s[|t|..], maxLen);
      assert t + s[|t|..] == s;
    }
  }

  /** Every token is non-empty, at most maxLen long, and a word or a single character. */
  lemma {:induction false} SegmentTokens(W: set<string>, s: string, maxLen: nat)
    requires maxLen >= 1
    ensures forall i :: 0 <= i < |Segment(W, s, maxLen)| ==>
      var t := Segment(W, s, maxLen)[i]; 1 <= |t| <= maxLen && (t in W || |t| == 1)
    decreases |s|
  {
    if |s| > 0 {
      var t := Token(W, s, maxLen);
      SegmentTokens(W, s[|t|..], maxLen);
    }
  }

  /**
   * Every token is the greedy match at its place: where the tokens before
   * it end, it is the longest word prefix of the window, or the window's
   * first character when no window prefix is a word.
   */
  lemma {:induction false} SegmentGreedy(W: set<string>, s: string, maxLen: nat, i: nat)
    requires maxLen >= 1 && i < |Segment(W, s, maxLen)|
    ensures 1 <= |Segment(W, s, maxLen)[i]| && |Concat(Segment(W, s, maxLen)[..i])| + |Segment(W, s, maxLen)[i]| <= |s|
    ensures var ts := Segment(W, s, maxLen);
      var rest := s[|Concat(ts[..i])|..];
      ts[i] == rest[..|ts[i]|] &&
      ((ts[i] in W && forall j :: |ts[i]| < j <= Min(maxLen, |rest|) ==> rest[..j] !in W) ||
       (|ts[i]| == 1 && forall j :: 1 <= j <= Min(maxLen, |rest|) ==> rest[..j] !in W))
    decreases |s|
  {
    var ts := Segment(W, s, maxLen);
    var t := Token(W, s, maxLen);
    if i == 0 {
      assert ts[..0] == [];
      TokenGreedy(W, s, maxLen);
    } else {
      var s' := s[|t|..];
      SegmentGreedy(W, s', maxLen, i - 1);
      var ts' := Segment(W, s', maxLen);
      assert ts[..i] == [t] + ts'[..i - 1];
      assert Concat(ts[..i]) == t + Concat(ts'[..i - 1]);
      assert s[|Concat(ts[..i])|..] == s'[|Concat(ts'[..i - 1])|..];
    }
  }
}
