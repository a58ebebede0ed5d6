/**
 * The three forward maximum matching segmenters: over a word list, over a
 * dictionary trie, and over word lists grouped by length. Each is proved to
 * compute MaxMatch.Segment of its dictionary's words, so all three agree
 * when built from the same word list.
 */
module Segmentation {
  import opened Base
  import opened MaxMatch
  import opened DictTrie

  /** The words a length-indexed dictionary holds: w is found under its own length. */
  ghost function Grouped(dictMap: map<int, seq<string>>): set<string>
  {
    set l, w | l in dictMap && w in dictMap[l] && |w| == l :: w
  }

  /** The state of fmm between two tokens: res followed by the segmentation of remainder is that of str. */
  ghost predicate Segmented(W: set<string>, str: string, maxLen: nat, res: seq<string>, remainder: string)
    requires maxLen >= 1
  {
    res + Segment(W, remainder, maxLen) == Segment(W, str, maxLen)
  }

  /** Taking token t off a non-empty remainder moves fmm on to the next token. */
  lemma Advance(W: set<string>, str: string, maxLen: nat, res: seq<string>, remainder: string, t: string)
    requires maxLen >= 1 && |remainder| > 0 && Segmented(W, str, maxLen, res, remainder)
    requires t == Token(W, remainder, maxLen)
    ensures Segmented(W, str, maxLen, res + [t], remainder[|t|..])
  {
    assert Segment(W, remainder, maxLen) == [t] + Segment(W, remainder[|t|..], maxLen);
    assert res + ([t] + Segment(W, remainder[|t|..], maxLen)) == (res + [t]) + Segment(W, remainder[|t|..], maxLen);
  }

  /** The window matched to the word cur: cur is the token when no longer window prefix is a word. */
  lemma MatchedToken(W: set<string>, remainder: string, maxLen: nat, cur: string)
    requires |remainder| > 0 && maxLen >= 1
    requires 1 <= |cur| <= Min(maxLen, |remainder|) && cur == remainder[..|cur|] && cur in W
    requires LongestIn(W, Window(remainder, maxLen), |Window(remainder, maxLen)|) ==
             LongestIn(W, Window(remainder, maxLen), |cur|)
    ensures Token(W, remainder, maxLen) == cur
  {
    var window := Window(remainder, maxLen);
    assert window[..|cur|] == cur;
  }

  /** The window reduced to one character that is not a word: the token is that character. */
  lemma SingleToken(W: set<string>, remainder: string, maxLen: nat, cur: string)
    requires |remainder| > 0 && maxLen >= 1
    requires cur == remainder[..1] && cur !in W
    requires LongestIn(W, Window(remainder, maxLen), |Window(remainder, maxLen)|) ==
             LongestIn(W, Window(remainder, maxLen), 1)
    ensures Token(W, remainder, maxLen) == cur
  {
    var window := Window(remainder, maxLen);
    assert window[..1] == cur;
  }

  /** Dropping the last character of a window prefix that is not a word keeps the longest match. */
  lemma Shrink(W: set<string>, window: string, cur: string)
    requires 1 <= |cur| <= |window| && cur == window[..|cur|] && cur !in W
    requires LongestIn(W, window, |window|) == LongestIn(W, window, |cur|)
    ensures LongestIn(W, window, |window|) == LongestIn(W, window, |cur| - 1)
    ensures cur[..|cur| - 1] == window[..|cur| - 1]
  {
  }

  /**
   * fmm over a word list (TimeTest): try the window, then ever shorter
   * prefixes of it, until one is in the list or a single character is left.
   */
  method FmmList(str: string, dict: seq<string>, maxLen: int) returns (res: seq<string>)
    requires maxLen >= 1
    ensures res == Segment(Listed(dict), str, maxLen)
  {
    ghost var W := Listed(dict);
    var remainder := str;
    res := [];
    while |remainder| > 0
      invariant Segmented(W, str, maxLen, res, remainder)
      decreases |remainder|
    {
      var cur := remainder[..Min(maxLen, |remainder|)];
      ghost var window := cur;
      while |cur| > 0
        invariant 1 <= |cur| <= |window| && cur == window[..|cur|]
        invariant LongestIn(W, window, |window|) == LongestIn(W, window, |cur|)
        decreases |cur|
      {
        if cur in dict {
          MatchedToken(W, remainder, maxLen, cur);
          Advance(W, str, maxLen, res, remainder, cur);
          res := res + [cur];
          remainder := remainder[|cur|..];
          break;
        }
        if |cur| == 1 {
          SingleToken(W, remainder, maxLen, cur);
          Advance(W, str, maxLen, res, remainder, cur);
          res := res + [cur];
          remainder := remainder[1..];
          break;
        }
        Shrink(W, window, cur);
        cur := cur[..|cur| - 1];
      }
    }
  }

  /** Whether cur is a word of dictMap, looked up under its length. */
  lemma GroupedMember(dictMap: map<int, seq<string>>, cur: string)
    ensures cur in Grouped(dictMap) <==> |cur| in dictMap && cur in dictMap[|cur|]
  {
    if |cur| in dictMap && cur in dictMap[|cur|] {
      assert cur in Grouped(dictMap);
    }
  }

  /**
   * fmm over dictMap (TimeTest): as over a list, but cur is only looked up
   * in the list of words of its own length, and shortened straight away
   * when there is no such list.
   */
  method FmmByLength(str: string, dictMap: map<int, seq<string>>, maxLen: int) returns (res: seq<string>)
    requires maxLen >= 1
    ensures res == Segment(Grouped(dictMap), str, maxLen)
  {
    ghost var W := Grouped(dictMap);
    var remainder := str;
    res := [];
    while |remainder| > 0
      invariant Segmented(W, str, maxLen, res, remainder)
      decreases |remainder|
    {
      var cur := remainder[..Min(maxLen, |remainder|)];
      ghost var window := cur;
      while |cur| > 0
        invariant 1 <= |cur| <= |window| && cur == window[..|cur|]
        invariant LongestIn(W, window, |window|) == LongestIn(W, window, |cur|)
        decreases |cur|
      {
        GroupedMember(dictMap, cur);
        if |cur| !in dictMap {
          if |cur| == 1 {
            SingleToken(W, remainder, maxLen, cur);
            Advance(W, str, maxLen, res, remainder, cur);
            res := res + [cur];
            remainder := remainder[1..];
            break;
          }
          Shrink(W, window, cur);
          cur := cur[..|cur| - 1];
          continue;
        }
        var dict := dictMap[|cur|];
        if cur in dict {
          MatchedToken(W, remainder, maxLen, cur);
          Advance(W, str, maxLen, res, remainder, cur);
          res := res + [cur];
          remainder := remainder[|cur|..];
          break;
        }
        if |cur| == 1 {
          SingleToken(W, remainder, maxLen, cur);
          Advance(W, str, maxLen, res, remainder, cur);
          res := res + [cur];
          remainder := remainder[1..];
          break;
        }
        Shrink(W, window, cur);
        cur := cur[..|cur| - 1];
      }
    }
  }

  /**
   * fmm over the dictionary trie (Main, and the trie version in TimeTest):
   * the token is the trie's longest word prefix of the window, or the
   * window's first character when there is none.
   */
  method FmmTrie(str: string, dict: Trie, maxLen: int) returns (res: seq<string>)
    requires dict.Valid() && maxLen >= 1
    ensures res == Segment(dict.Words(), str, maxLen)
  {
    ghost var W := dict.Words();
    var remainder := str;
    res := [];
    while |remainder| > 0
      invariant Segmented(W, str, maxLen, res, remainder)
      decreases |remainder|
    {
      var cur := remainder[..Min(maxLen, |remainder|)];
      var longestPrefix := dict.SearchLongestPrefix(cur);
      if longestPrefix.Some? {
        var t := longestPrefix.value;
        Advance(W, str, maxLen, res, remainder, t);
        res := res + [t];
        remainder := remainder[|t|..];
      } else {
        var t := cur[..1];
        Advance(W, str, maxLen, res, remainder, t);
        res := res + [t];
        remainder := remainder[1..];
      }
    }
  }

  /** The words of dict of length l, in list order. */
  function OfLength(dict: seq<string>, l: int): (r: seq<string>)
    ensures forall w :: w in r <==> w in dict && |w| == l
  {
    if |dict| == 0 then []
    else OfLength(dict[..|dict| - 1], l) + (if |dict[|dict| - 1]| == l then [dict[|dict| - 1]] else [])
  }

  /** The grouping of version2: a list for every length that occurs, holding the words of that length in order. */
  ghost predicate GroupsOf(dictMap: map<int, seq<string>>, dict: seq<string>)
  {
    (forall l :: l in dictMap <==> exists w :: w in dict && |w| == l) &&
    (forall l :: l in dictMap ==> dictMap[l] == OfLength(dict, l))
  }

  /** A length-indexed dictionary grouped from dict holds the words of dict. */
  lemma GroupedListed(dictMap: map<int, seq<string>>, dict: seq<string>)
    requires GroupsOf(dictMap, dict)
    ensures Grouped(dictMap) == Listed(dict)
  {
    forall w | w in Listed(dict)
      ensures w in Grouped(dictMap)
    {
      GroupedMember(dictMap, w);
    }
  }

  lemma OfLengthStep(dict: seq<string>, i: nat, l: int)
    requires i < |dict|
    ensures OfLength(dict[..i + 1], l) == OfLength(dict[..i], l) + (if |dict[i]| == l then [dict[i]] else [])
  {
    assert dict[..i + 1][..i] == dict[..i];
  }

  /** version2: put every word into the list of its length, creating the list on first use. */
  method GroupByLength(dict: seq<string>) returns (dictMap: map<int, seq<string>>)
    ensures GroupsOf(dictMap, dict)
  {
    dictMap := map[];
    for i := 0 to |dict|
      invariant GroupsOf(dictMap, dict[..i])
    {
      var line := dict[i];
      var len := |line|;
      GroupStep(dictMap, dict, i);
      if len !in dictMap {
        dictMap := dictMap[len := []];
      }
      dictMap := dictMap[len := dictMap[len] + [line]];
    }
    assert dict[..|dict|] == dict;
  }

  /** The map after adding w to the list of its length. */
  function Put(dictMap: map<int, seq<string>>, w: string): map<int, seq<string>>
  {
    dictMap[|w| := (if |w| in dictMap then dictMap[|w|] else []) + [w]]
  }

  /** Adding the next word keeps the grouping of the words seen so far. */
  lemma GroupStep(dictMap: map<int, seq<string>>, dict: seq<string>, i: nat)
    requires i < |dict| && GroupsOf(dictMap, dict[..i])
    ensures GroupsOf(Put(dictMap, dict[i]), dict[..i + 1])
  {
    var d, d', w := dict[..i], dict[..i + 1], dict[i];
    var m' := Put(dictMap, w);
    assert d' == d + [w];
    forall l
      ensures l in m' <==> exists x :: x in d' && |x| == l
    {
      if l == |w| {
        assert w in d';
      } else if l in dictMap {
        var x :| x in d && |x| == l;
        assert x in d';
      }
    }
    forall l | l in m'
      ensures m'[l] == OfLength(d', l)
    {
      OfLengthStep(dict, i, l);
      if l == |w| && l !in dictMap {
        OfLengthNone(d, l);
      }
    }
  }

  lemma {:induction false} OfLengthNone(dict: seq<string>, l: int)
    requires forall w :: w in dict ==> |w| != l
    ensures OfLength(dict, l) == []
  {
    if |dict| > 0 {
      OfLengthNone(dict[..|dict| - 1], l);
    }
  }

  /**
   * The three versions run on the same sentence with the same word list:
   * as a list, grouped by length, and inserted into a trie. The outputs
   * they write side by side are equal.
   */
  method Versions(str: string, dict: seq<string>, maxLen: int) returns (v1: seq<string>, v2: seq<string>, v3: seq<string>)
    requires maxLen >= 1
    ensures v1 == v2 && v2 == v3
    ensures v1 == Segment(Listed(dict), str, maxLen)
  {
    v1 := FmmList(str, dict, maxLen);
    var dictMap := GroupByLength(dict);
    GroupedListed(dictMap, dict);
    v2 := FmmByLength(str, dictMap, maxLen);
    var trie := BuildDict(dict);
    v3 := FmmTrie(str, trie, maxLen);
  }
}
