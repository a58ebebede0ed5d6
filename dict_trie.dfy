/**
 * The dictionary trie of the segmenter: TrieNode objects with a map from
 * character to child and an end-of-word flag, reached from a root node.
 *
 * The nodes form an arena: node n's child map is children[n] and its flag
 * isEnd[n]; node 0 is the root. As ghost state each node carries the string
 * spelled from the root to it.
 */
module DictTrie {
  import opened Base
  import opened TrieArena
  import opened MaxMatch

  /** The strings of the nodes whose end-of-word flag is set. */
  ghost function Ends(ps: seq<string>, ends: seq<bool>): set<string>
    requires |ends| == |ps|
  {
    set n | 0 <= n < |ps| && ends[n] :: ps[n]
  }

  lemma EndsGrow(ps: seq<string>, ends: seq<bool>, x: string)
    requires |ends| == |ps|
    ensures Ends(ps + [x], ends + [false]) == Ends(ps, ends)
  {
    var ps', ends' := ps + [x], ends + [false];
    forall y | y in Ends(ps', ends')
      ensures y in Ends(ps, ends)
    {
      var n :| 0 <= n < |ps'| && ends'[n] && ps'[n] == y;
      assert n < |ps| && ps[n] == y && ends[n];
    }
    forall y | y in Ends(ps, ends)
      ensures y in Ends(ps', ends')
    {
      var n :| 0 <= n < |ps| && ends[n] && ps[n] == y;
      assert ps'[n] == y && ends'[n];
    }
  }

  lemma EndsMark(ps: seq<string>, ends: seq<bool>, n: nat)
    requires |ends| == |ps| && n < |ps|
    ensures Ends(ps, ends[n := true]) == Ends(ps, ends) + {ps[n]}
  {
    var ends' := ends[n := true];
    forall y | y in Ends(ps, ends')
      ensures y in Ends(ps, ends) + {ps[n]}
    {
      var m :| 0 <= m < |ps| && ends'[m] && ps[m] == y;
      if m != n {
        assert ends[m];
      }
    }
    forall y | y in Ends(ps, ends) + {ps[n]}
      ensures y in Ends(ps, ends')
    {
      if y == ps[n] {
        assert ends'[n];
      } else {
        var m :| 0 <= m < |ps| && ends[m] && ps[m] == y;
        assert ends'[m];
      }
    }
  }

  /** With distinct node strings, a node's string is a word exactly when its flag is set. */
  lemma EndsAt(ps: seq<string>, ends: seq<bool>, n: nat)
    requires Distinct(ps) && |ends| == |ps| && n < |ps|
    ensures ps[n] in Ends(ps, ends) <==> ends[n]
  {
    if ps[n] in Ends(ps, ends) {
      var m :| 0 <= m < |ps| && ends[m] && ps[m] == ps[n];
      assert m == n;
    }
  }

  lemma EndsNodes(ps: seq<string>, ends: seq<bool>)
    requires |ends| == |ps|
    ensures Ends(ps, ends) <= NodeStrings(ps)
  {
  }

  /** Where node n = s[..i] has no child for s[i], no longer prefix of s is a word: the search may stop. */
  lemma SearchStops(ch: seq<map<char, int>>, ps: seq<string>, ends: seq<bool>, n: nat, s: string, i: nat)
    requires Arena(ch, ps) && |ends| == |ps| && n < |ps| && i < |s| && ps[n] == s[..i] && s[i] !in ch[n]
    ensures LongestIn(Ends(ps, ends), s, |s|) == LongestIn(Ends(ps, ends), s, i)
  {
    NoWordPast(ch, ps, ends, n, s, i);
    LongestInSkip(Ends(ps, ends), s, i, |s|);
  }

  lemma NoWordPast(ch: seq<map<char, int>>, ps: seq<string>, ends: seq<bool>, n: nat, s: string, i: nat)
    requires Arena(ch, ps) && |ends| == |ps| && n < |ps| && i < |s| && ps[n] == s[..i] && s[i] !in ch[n]
    ensures forall j :: i < j <= |s| ==> s[..j] !in Ends(ps, ends)
  {
    EndsNodes(ps, ends);
    forall j | i < j <= |s|
      ensures s[..j] !in ps
    {
      PrefixThen(s, i, j, ps[n]);
      MissingChild(ch, ps, n, s[i], s[..j]);
    }
  }

  // A proof step kept in a lemma of its own so that the sequence or set equality stays out of its callers' larger proofs; not a claim about the model.
  lemma UnionStep(s0: set<string>, p: set<string>, s: set<string>, x: string, s1: set<string>, q: set<string>)
    requires s == s0 + p && s1 == s + {x} && q == p + {x}
    ensures s1 == s0 + q
  {
  }

  // A proof step kept in a lemma of its own so that the sequence or set equality stays out of its callers' larger proofs; not a claim about the model.
  lemma PrefixThen(s: string, i: nat, j: nat, p: string)
    requires i < j <= |s| && p == s[..i]
    ensures |s[..j]| > |p| && s[..j][..|p| + 1] == p + [s[i]]
  {
  }

  /** A node string longer than node n's and extending it by c means n has a child c. */
  lemma PresentChild(ch: seq<map<char, int>>, ps: seq<string>, n: nat, c: char, x: string)
    requires Arena(ch, ps) && n < |ps| && |x| > |ps[n]| && x[..|ps[n]| + 1] == ps[n] + [c] && x in NodeStrings(ps)
    ensures c in ch[n]
  {
    if c !in ch[n] {
      MissingChild(ch, ps, n, c, x);
      assert false;
    }
  }

  /** Trie with its TrieNode objects. */
  class Trie {
    var children: seq<map<char, int>>
    var isEnd: seq<bool>
    ghost var paths: seq<string>

    ghost predicate Valid()
      reads this
    {
      Arena(children, paths) && |isEnd| == |paths|
    }

    /** The strings of all nodes. */
    ghost function Strings(): set<string>
      reads this
    {
      NodeStrings(paths)
    }

    /** The inserted words: the strings of the nodes marked as word ends. */
    ghost function Words(): set<string>
      reads this
      requires Valid()
    {
      Ends(paths, isEnd)
    }

    constructor ()
      ensures Valid() && Strings() == {[]} && Words() == {}
    {
      children := [map[]];
      isEnd := [false];
      paths := [[]];
      new;
      assert paths[0] == [];
    }

    /**
     * insert: walk down word, adding each missing child, then mark the last
     * node as a word end. Inserting a word already present changes nothing.
     */
    method Insert(word: string)
      requires Valid()
      modifies this
      ensures Valid()
      ensures Strings() == old(Strings()) + Prefixes(word)
      ensures Words() == old(Words()) + {word}
      ensures old(word in Words()) ==> children == old(children) && isEnd == old(isEnd) && paths == old(paths)
    {
      EndsNodes(paths, isEnd);
      var node := Walk(word);
      MarkEnd(node);
    }

    /** The loop of insert: follow word from the root, adding the missing children; a node string adds nothing. */
    method Walk(word: string) returns (node: nat)
      requires Valid()
      modifies this
      ensures Valid() && node < |paths| && paths[node] == word
      ensures Strings() == old(Strings()) + Prefixes(word)
      ensures Words() == old(Words())
      ensures old(word in Strings()) ==> children == old(children) && isEnd == old(isEnd) && paths == old(paths)
    {
      ghost var present := word in Strings();
      ghost var ch0, e0, ps0 := children, isEnd, paths;
      ghost var s0, w0 := Strings(), Words();
      node := 0;
      var i := 0;
      assert Prefixes(word[..0]) == {[]} by {
        assert word[..0][..0] == [];
      }
      assert [] in Strings() by { assert paths[0] == []; }
      while i < |word|
        invariant 0 <= i <= |word|
        invariant Valid()
        invariant node < |paths| && paths[node] == word[..i]
        invariant Strings() == s0 + Prefixes(word[..i])
        invariant Words() == w0
        invariant present ==> children == ch0 && isEnd == e0 && paths == ps0
      {
        ghost var before := Strings();
        PrefixesStep(word, i);
        if present {
          NodeChild(node, word[i], word);
        }
        node := Child(node, word[i]);
        UnionStep(s0, Prefixes(word[..i]), before, word[..i + 1], Strings(), Prefixes(word[..i + 1]));
        i := i + 1;
      }
      assert word[..i] == word;
    }

    /** A node string that extends node n's by c lies below n's child c. */
    lemma NodeChild(n: nat, c: char, x: string)
      requires Valid() && n < |paths| && |x| > |paths[n]| && x[..|paths[n]| + 1] == paths[n] + [c] && x in Strings()
      ensures c in children[n]
    {
      PresentChild(children, paths, n, c, x);
    }

    /** node.isEnd = true: the node's string becomes a word; a word end stays as it is. */
    method MarkEnd(n: nat)
      requires Valid() && n < |paths|
      modifies this
      ensures Valid() && children == old(children) && paths == old(paths)
      ensures Words() == old(Words()) + {paths[n]}
      ensures old(paths[n] in Words()) ==> isEnd == old(isEnd)
    {
      EndsMark(paths, isEnd, n);
      EndsAt(paths, isEnd, n);
      isEnd := isEnd[n := true];
    }

    /** One step of insert: the child c of node n, added when missing. */
    method Child(n: nat, c: char) returns (m: nat)
      requires Valid() && n < |paths|
      modifies this
      ensures Valid() && m < |paths| && paths[m] == old(paths[n]) + [c]
      ensures Strings() == old(Strings()) + {old(paths[n]) + [c]}
      ensures Words() == old(Words())
      ensures old(c in children[n]) ==> children == old(children) && isEnd == old(isEnd) && paths == old(paths)
    {
      if c !in children[n] {
        AddChild(n, c);
      }
      m := children[n][c];
      assert paths[m] in Strings();
    }

    /** children.put(c, new TrieNode()): a fresh node, not a word end, becomes child c of node n. */
    method AddChild(n: nat, c: char)
      requires Valid() && n < |paths| && c !in children[n]
      modifies this
      ensures Valid()
      ensures paths == old(paths) + [old(paths[n]) + [c]]
      ensures children == old(children[n := children[n][c := |children|]]) + [map[]]
      ensures isEnd == old(isEnd) + [false]
      ensures Strings() == old(Strings()) + {old(paths[n]) + [c]}
      ensures Words() == old(Words())
    {
      NewChildIsNew(children, paths, n, c);
      LinkedGrow(children, paths, n, c);
      DistinctGrow(paths, paths[n] + [c]);
      ClosedGrow(paths, n, c);
      CompleteGrow(children, paths, n, c);
      NodeStringsGrow(paths, paths[n] + [c]);
      EndsGrow(paths, isEnd, paths[n] + [c]);
      children, paths := children[n := children[n][c := |children|]] + [map[]], paths + [paths[n] + [c]];
      isEnd := isEnd + [false];
    }

    /**
     * searchLongestPrefix: follow s down the trie while a child exists and
     * remember the last word end passed. The result is the longest
     * non-empty inserted word that starts s, or None (null); the empty word
     * is never returned, even when it was inserted.
     */
    method SearchLongestPrefix(s: string) returns (res: Option<string>)
      requires Valid()
      ensures res == LongestWord(Words(), s)
    {
      ghost var W := Words();
      var node := 0;
      res := None;
      var sb: string := [];
      var i := 0;
      while i < |s|
        invariant 0 <= i <= |s| && sb == s[..i]
        invariant 0 <= node < |paths| && paths[node] == sb
        invariant res == LongestIn(W, s, i)
      {
        var c := s[i];
        if c in children[node] {
          TakeNext(s, i);
          sb := sb + [c];
          node := children[node][c];
          i := i + 1;
          EndsAt(paths, isEnd, node);
          if isEnd[node] {
            res := Some(sb);
          }
        } else {
          SearchStops(children, paths, isEnd, node, s, i);
          break;
        }
      }
    }
  }

  /** The words of a dictionary given as a list. */
  ghost function Listed(dict: seq<string>): set<string>
  {
    set w | w in dict
  }

  lemma ListedStep(dict: seq<string>, i: nat)
    requires i < |dict|
    ensures Listed(dict[..i + 1]) == Listed(dict[..i]) + {dict[i]}
  {
    assert dict[..i + 1] == dict[..i] + [dict[i]];
  }

  /** A trie holding exactly the words of dict, inserted in order (the dictionary file's lines). */
  method BuildDict(dict: seq<string>) returns (t: Trie)
    ensures fresh(t) && t.Valid() && t.Words() == Listed(dict)
  {
    t := new Trie();
    for i := 0 to |dict|
      invariant t.Valid() && t.Words() == Listed(dict[..i])
    {
      t.Insert(dict[i]);
      ListedStep(dict, i);
    }
    assert dict[..|dict|] == dict;
  }
}
