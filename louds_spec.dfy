/**
 * What a LOUDS dictionary means, stated on strings.
 *
 * A trie is identified with the set W of the strings of its nodes (the root is
 * the empty string). Listing the nodes breadth-first, children in increasing
 * character order, gives a sequence `order`; node id k is the k-th string of
 * that list. The LOUDS bits are the unary degree sequence of this list and the
 * labels are the last characters of the non-root nodes, cast to bytes.
 */
module LoudsSpec {
  import opened JavaText
  import opened BitVector
  import opened LoudsShape
  import opened Shortlex
  import opened LoudsLists
  import opened TrieArena

  /** The node strings of the trie that inserting every word of vocab builds. */
  function PrefixClosure(vocab: seq<string>): set<string>
  {
    if |vocab| == 0 then {[]}
    else PrefixClosure(vocab[..|vocab| - 1]) + Prefixes(vocab[|vocab| - 1])
  }

  /** The string of x's parent node is a node too. */
  predicate HasParent(W: set<string>, x: string)
  {
    |x| > 0 ==> x[..|x| - 1] in W
  }

  predicate PrefixClosed(W: set<string>)
  {
    forall x {:trigger HasParent(W, x)} :: x in W ==> HasParent(W, x)
  }

  /** The node strings are exactly the root and the prefixes of the words. */
  lemma {:induction false} PrefixClosureMembers(vocab: seq<string>, x: string)
    ensures x in PrefixClosure(vocab) <==>
            (x == [] || exists i, k :: 0 <= i < |vocab| && 0 <= k <= |vocab[i]| && x == vocab[i][..k])
    decreases |vocab|
  {
    if |vocab| > 0 {
      var v := vocab[..|vocab| - 1];
      PrefixClosureMembers(v, x);
      if x in Prefixes(vocab[|vocab| - 1]) {
        var k :| 0 <= k <= |vocab[|vocab| - 1]| && x == vocab[|vocab| - 1][..k];
        assert x == vocab[|vocab| - 1][..k];
      }
      if exists i, k :: 0 <= i < |vocab| && 0 <= k <= |vocab[i]| && x == vocab[i][..k] {
        var i, k :| 0 <= i < |vocab| && 0 <= k <= |vocab[i]| && x == vocab[i][..k];
        if i < |v| {
          assert v[i] == vocab[i];
        } else {
          assert x in Prefixes(vocab[|vocab| - 1]);
        }
      }
      if exists i, k :: 0 <= i < |v| && 0 <= k <= |v[i]| && x == v[i][..k] {
        var i, k :| 0 <= i < |v| && 0 <= k <= |v[i]| && x == v[i][..k];
        assert vocab[i] == v[i];
      }
    }
  }

  /** Every prefix of every word is a node string. */
  lemma PrefixClosureContains(vocab: seq<string>, i: nat)
    requires i < |vocab|
    ensures Prefixes(vocab[i]) <= PrefixClosure(vocab)
  {
    forall x | x in Prefixes(vocab[i])
      ensures x in PrefixClosure(vocab)
    {
      var k :| 0 <= k <= |vocab[i]| && x == vocab[i][..k];
      PrefixClosureMembers(vocab, x);
    }
  }

  /** The node strings depend only on which words occur, not on their order or repetitions. */
  lemma PrefixClosureOfSameWords(v1: seq<string>, v2: seq<string>)
    requires forall w :: w in v1 <==> w in v2
    ensures PrefixClosure(v1) == PrefixClosure(v2)
  {
    forall x
      ensures x in PrefixClosure(v1) <==> x in PrefixClosure(v2)
    {
      PrefixClosureMembers(v1, x);
      PrefixClosureMembers(v2, x);
      if exists i, k :: 0 <= i < |v1| && 0 <= k <= |v1[i]| && x == v1[i][..k] {
        var i, k :| 0 <= i < |v1| && 0 <= k <= |v1[i]| && x == v1[i][..k];
        assert v1[i] in v2;
        var i2 :| 0 <= i2 < |v2| && v2[i2] == v1[i];
        assert x == v2[i2][..k];
      }
      if exists i, k :: 0 <= i < |v2| && 0 <= k <= |v2[i]| && x == v2[i][..k] {
        var i, k :| 0 <= i < |v2| && 0 <= k <= |v2[i]| && x == v2[i][..k];
        assert v2[i] in v1;
        var i1 :| 0 <= i1 < |v1| && v1[i1] == v2[i];
        assert x == v1[i1][..k];
      }
    }
  }

  lemma PrefixClosureIsPrefixClosed(vocab: seq<string>)
    ensures [] in PrefixClosure(vocab)
    ensures PrefixClosed(PrefixClosure(vocab))
  {
    PrefixClosureMembers(vocab, []);
    forall x | x in PrefixClosure(vocab)
      ensures HasParent(PrefixClosure(vocab), x)
    {
      PrefixClosureMembers(vocab, x);
      if |x| > 0 {
      var i, k :| 0 <= i < |vocab| && 0 <= k <= |vocab[i]| && x == vocab[i][..k];
      assert x[..|x| - 1] == vocab[i][..k - 1];
      PrefixClosureMembers(vocab, x[..|x| - 1]);
      }
    }
  }

  /** The labels of the children of node x. */
  function KidSet(W: set<string>, x: string): set<char>
  {
    set y | y in W && |y| == |x| + 1 && y[..|x|] == x :: y[|x|]
  }

  lemma {:induction false} HasMinimum(s: set<char>)
    requires s != {}
    ensures exists m :: m in s && forall c :: c in s ==> m <= c
    decreases |s|
  {
    var x :| x in s;
    if s != {x} {
      HasMinimum(s - {x});
      var m :| m in s - {x} && forall c :: c in s - {x} ==> m <= c;
      var least := if x < m then x else m;
      forall c | c in s
        ensures least <= c
      {
        if c != x {
          assert c in s - {x};
        }
      }
    } else {
      assert forall c :: c in s ==> x <= c;
    }
  }

  /** The characters of s in increasing order (a key set copied to a list and sorted). */
  function SortedKeys(s: set<char>): (r: seq<char>)
    ensures |r| == |s|
    ensures forall c :: c in r <==> c in s
    ensures forall i, j :: 0 <= i < j < |r| ==> r[i] < r[j]
    decreases |s|
  {
    if s == {} then []
    else
      HasMinimum(s);
      var m :| m in s && forall c :: c in s ==> m <= c;
      var rest := SortedKeys(s - {m});
      ConsIncreasing(m, rest);
      [m] + rest
  }

  /** A character below every element of an increasing list extends it at the front. */
  lemma ConsIncreasing(m: char, rest: seq<char>)
    requires forall c :: c in rest ==> m < c
    requires forall i, j :: 0 <= i < j < |rest| ==> rest[i] < rest[j]
    ensures forall i, j :: 0 <= i < j < |[m] + rest| ==> ([m] + rest)[i] < ([m] + rest)[j]
  {
    forall i, j | 0 <= i < j < |[m] + rest|
      ensures ([m] + rest)[i] < ([m] + rest)[j]
    {
      assert ([m] + rest)[j] == rest[j - 1];
      if i > 0 {
        assert ([m] + rest)[i] == rest[i - 1];
      } else {
        assert rest[j - 1] in rest;
      }
    }
  }

  /** The children's labels of node x, in the order the traversal visits them. */
  function Kids(W: set<string>, x: string): seq<char>
  {
    SortedKeys(KidSet(W, x))
  }

  /** The children's labels of every listed node. */
  function KidLists(W: set<string>, xs: seq<string>): (K: seq<seq<char>>)
    ensures |K| == |xs|
    ensures forall m :: 0 <= m < |xs| ==> K[m] == Kids(W, xs[m])
  {
    seq(|xs|, m requires 0 <= m < |xs| => Kids(W, xs[m]))
  }

  lemma KidListsPrefix(W: set<string>, xs: seq<string>, i: nat)
    requires i <= |xs|
    ensures KidLists(W, xs[..i]) == KidLists(W, xs)[..i]
  {
  }

  lemma KidListsStep(W: set<string>, xs: seq<string>, i: nat)
    requires i < |xs|
    ensures KidLists(W, xs[..i + 1]) == KidLists(W, xs[..i]) + [Kids(W, xs[i])]
  {
  }

  /** The kid lists of a listing that grows by one node. */
  lemma KidListsNext(W: set<string>, order: seq<string>, pre: seq<string>, i: nat, K: seq<seq<char>>, ks: seq<char>)
    requires |pre| == i + 1 <= |order| && order[..i + 1] == pre
    requires ks == Kids(W, pre[i]) && K == KidLists(W, pre[..i])
    ensures K + [ks] == KidLists(W, order[..i + 1])
  {
    assert pre[..i] == order[..i];
    KidListsStep(W, order, i);
  }

  /** order lists the strings of W in shortlex order, each once. */
  ghost predicate Listing(W: set<string>, order: seq<string>)
  {
    Sorted(order) && W == (set x | x in order)
  }

  /**
   * l is the LOUDS encoding of the trie whose node strings are W, and order
   * lists W breadth-first: the root, then the children of the listed nodes in
   * turn, children in increasing label order.
   */
  ghost predicate Encodes(l: Louds, W: set<string>, order: seq<string>)
  {
    Listing(W, order) && FixedPoint(order, KidLists(W, order)) && Layout(l, KidLists(W, order))
  }

  /** A child's string is one of the node strings. */
  lemma ChildIsNode(W: set<string>, x: string, c: char)
    requires c in Kids(W, x)
    ensures x + [c] in W
  {
    var y :| y in W && |y| == |x| + 1 && y[..|x|] == x && y[|x|] == c;
    assert y == x + [c];
  }

  /** The last character of a non-empty node string is one of its parent's labels. */
  lemma KidIndex(W: set<string>, x: string) returns (j: nat)
    requires x in W && |x| > 0
    ensures j < |Kids(W, x[..|x| - 1])| && x == x[..|x| - 1] + [Kids(W, x[..|x| - 1])[j]]
  {
    var p := x[..|x| - 1];
    assert x[..|p|] == p;
    assert x[|p|] in KidSet(W, p);
    j :| 0 <= j < |Kids(W, p)| && Kids(W, p)[j] == x[|p|];
  }

  /** A listing that is its own fixed point contains every string of a prefix-closed W. */
  lemma {:induction false} FixedPointCovers(W: set<string>, order: seq<string>, x: string)
    requires PrefixClosed(W) && x in W
    requires FixedPoint(order, KidLists(W, order))
    ensures x in order
    decreases |x|
  {
    if |x| > 0 {
      var p := x[..|x| - 1];
      assert HasParent(W, x);
      FixedPointCovers(W, order, p);
      var m :| 0 <= m < |order| && order[m] == p;
      var j := KidIndex(W, x);
      var K := KidLists(W, order);
      ChildAt(order, K, m, j);
      assert order[Sum(Degrees(K)[..m]) + j + 1] == x;
    } else {
      assert order[0] == x;
    }
  }

  /** A listing that covers W and lists only strings of W lists exactly W. */
  lemma ListedSet(W: set<string>, order: seq<string>)
    requires forall x :: x in W ==> x in order
    requires forall k :: 0 <= k < |order| ==> order[k] in W
    ensures W == (set x | x in order)
  {
  }

  /** One node per string of W, one label per non-root node, two bits per edge plus one. */
  lemma EncodesCounts(l: Louds, W: set<string>, order: seq<string>)
    requires Encodes(l, W, order)
    ensures |order| == |l.labels| + 1 == |W|
    ensures l.bitLen == 2 * |l.labels| + 1
    ensures Ones(l.bits, l.bitLen) == |l.labels|
  {
    LayoutCounts(l, order, KidLists(W, order));
    SortedCardinality(order);
  }

  lemma ListingMember(W: set<string>, order: seq<string>, x: string)
    requires Listing(W, order)
    ensures x in W <==> x in order
  {
    if x in order {
      assert x in (set y | y in order);
    }
  }

  /** Two shortlex listings of the same set are the same listing. */
  lemma ListingUnique(W: set<string>, order1: seq<string>, order2: seq<string>)
    requires Listing(W, order1) && Listing(W, order2)
    ensures order1 == order2
  {
    forall x
      ensures x in order1 <==> x in order2
    {
      ListingMember(W, order1, x);
      ListingMember(W, order2, x);
    }
    SortedUnique(order1, order2);
  }

  /** The breadth-first listing and the encoding are determined by W alone. */
  lemma EncodesUnique(l1: Louds, l2: Louds, W: set<string>, order1: seq<string>, order2: seq<string>)
    requires Encodes(l1, W, order1) && Encodes(l2, W, order2)
    ensures order1 == order2 && l1 == l2
  {
    ListingUnique(W, order1, order2);
  }
}
