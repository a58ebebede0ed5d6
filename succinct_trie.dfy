/**
 * The LOUDS succinct trie: a pointer trie built by inserting the vocabulary,
 * flattened breadth-first into a bit set and a label byte array, then used to
 * resolve every word to a node id and every node id back to a word.
 *
 * The pointer trie is an arena: node n's child map sends a character to the
 * id of the child node; node 0 is the root. Each node carries, as ghost
 * state, the string spelled from the root to it.
 */
module SuccinctTrie {
  import opened Base
  import opened JavaText
  import opened BitVector
  import opened LoudsShape
  import opened Shortlex
  import opened LoudsLists
  import opened LoudsSpec
  import opened LoudsNav
  import opened TrieArena

  /** The pointer trie of Node objects, each with a map from character to child. */
  class Trie {
    var children: seq<map<char, int>>
    ghost var paths: seq<string>

    ghost predicate Valid()
      reads this
    {
      Arena(children, paths)
    }

    /** The strings of all nodes of the trie. */
    ghost function Strings(): set<string>
      reads this
    {
      NodeStrings(paths)
    }

    constructor ()
      ensures Valid() && Strings() == {[]}
      ensures |children| == 1
    {
      children := [map[]];
      paths := [[]];
      new;
      assert paths[0] == [];
    }

    /**
     * insert(root, word): walk down word, creating each missing child. The
     * trie gains exactly the prefixes of word.
     */
    method Insert(word: string)
      requires Valid()
      modifies this
      ensures Valid()
      ensures Strings() == old(Strings()) + Prefixes(word)
    {
      var cur := 0;
      var k := 0;
      assert Prefixes(word[..0]) == {[]} by {
        assert word[..0][..0] == [];
      }
      assert [] in Strings() by { assert paths[0] == []; }
      while k < |word|
        invariant 0 <= k <= |word|
        invariant Valid()
        invariant 0 <= cur < |paths| && paths[cur] == word[..k]
        invariant Strings() == old(Strings()) + Prefixes(word[..k])
      {
        var c := word[k];
        PrefixesStep(word, k);
        if c in children[cur] {
          cur := children[cur][c];
          assert paths[cur] in Strings();
        } else {
          AddChild(cur, c);
          cur := |children| - 1;
        }
        k := k + 1;
      }
      assert word[..k] == word;
    }

    /** computeIfAbsent for a missing key: a fresh node becomes child c of node n. */
    method AddChild(n: nat, c: char)
      requires Valid() && n < |paths| && c !in children[n]
      modifies this
      ensures Valid()
      ensures paths == old(paths) + [old(paths[n]) + [c]]
      ensures children == old(children[n := children[n][c := |children|]]) + [map[]]
      ensures Strings() == old(Strings()) + {old(paths[n]) + [c]}
    {
      NewChildIsNew(children, paths, n, c);
      LinkedGrow(children, paths, n, c);
      DistinctGrow(paths, paths[n] + [c]);
      ClosedGrow(paths, n, c);
      CompleteGrow(children, paths, n, c);
      NodeStringsGrow(paths, paths[n] + [c]);
      children, paths := children[n := children[n][c := |children|]] + [map[]], paths + [paths[n] + [c]];
    }
  }

  /** The keys of node n's child map are the labels of n's children among the node strings. */
  lemma ChildKeys(ch: seq<map<char, int>>, ps: seq<string>, n: nat)
    requires Arena(ch, ps) && n < |ps|
    ensures ch[n].Keys == KidSet(NodeStrings(ps), ps[n])
  {
    var x := ps[n];
    forall c | c in ch[n]
      ensures c in KidSet(NodeStrings(ps), x)
    {
      var id := ch[n][c];
      assert 0 <= id < |ps| && ps[id] == x + [c];
      var y := ps[id];
      assert y in NodeStrings(ps);
      assert y[..|x|] == x && y[|x|] == c;
    }
    forall c | c in KidSet(NodeStrings(ps), x)
      ensures c in ch[n]
    {
      var y :| y in NodeStrings(ps) && |y| == |x| + 1 && y[..|x|] == x && y[|x|] == c;
      var m :| 0 <= m < |ps| && ps[m] == y;
      assert m > 0 by { assert |ps[0]| == 0; }
      assert ps[m][..|ps[m]| - 1] == ps[n];
    }
  }

  /** The trie that inserting the words of vocab one after the other builds. */
  method BuildTrie(vocab: seq<string>) returns (t: Trie)
    ensures fresh(t) && t.Valid() && t.Strings() == PrefixClosure(vocab)
  {
    t := new Trie();
    for i := 0 to |vocab|
      invariant t.Valid() && t.Strings() == PrefixClosure(vocab[..i])
    {
      t.Insert(vocab[i]);
      assert vocab[..i + 1][..i] == vocab[..i];
    }
    assert vocab[..|vocab|] == vocab;
  }

  /** A sorted listing of strings of W is no longer than W. */
  lemma ListedBound(W: set<string>, order: seq<string>)
    requires Sorted(order) && forall k :: 0 <= k < |order| ==> order[k] in W
    ensures |order| <= |W|
  {
    SortedCardinality(order);
    SubsetCardinality((set x | x in order), W);
  }

  /** A finished traversal of a prefix-closed W lists W and encodes it. */
  lemma TraversalDone(W: set<string>, order: seq<string>, K: seq<seq<char>>, bits: seq<bool>, labels: seq<JByte>)
    requires Traversal(order, |order|, K, bits, labels) && K == KidLists(W, order[..|order|]) && PrefixClosed(W)
    requires forall k :: 0 <= k < |order| ==> order[k] in W
    ensures Encodes(Louds(bits, labels, |bits|), W, order)
  {
    assert order[..|order|] == order;
    TraversalEnd(order, KidLists(W, order), bits, labels);
    assert forall x :: x in W ==> x in order by {
      forall x | x in W
        ensures x in order
      {
        FixedPointCovers(W, order, x);
      }
    }
    ListedSet(W, order);
  }

  /** Queue entries and listed nodes: ids[k] is the arena node whose string is order[k]. */
  ghost predicate Tracks(ps: seq<string>, ids: seq<int>, order: seq<string>)
  {
    |ids| == |order| && forall k :: 0 <= k < |ids| ==> 0 <= ids[k] < |ps| && ps[ids[k]] == order[k]
  }

  lemma TracksAppend(ps: seq<string>, ids: seq<int>, order: seq<string>, id: int, x: string)
    requires Tracks(ps, ids, order) && 0 <= id < |ps| && ps[id] == x
    ensures Tracks(ps, ids + [id], order + [x])
  {
  }

  lemma TracksNodes(ps: seq<string>, ids: seq<int>, order: seq<string>)
    requires Tracks(ps, ids, order)
    ensures forall k :: 0 <= k < |order| ==> order[k] in NodeStrings(ps)
  {
    forall k | 0 <= k < |order|
      ensures order[k] in NodeStrings(ps)
    {
      assert ps[ids[k]] == order[k];
    }
  }

  /**
   * The state of buildLouds inside node p = ids[i], whose sorted keys are
   * keys, after its first j children: the traversal state, the queue holding
   * the arena ids of the listed nodes not yet visited, and the bound on the
   * listing's length.
   */
  ghost predicate Visiting(nodes: seq<map<char, int>>, paths: seq<string>, W: set<string>, p: int, keys: seq<char>,
                           i: nat, K: seq<seq<char>>, j: nat, pre: seq<string>, order: seq<string>, ids: seq<int>,
                           queue: seq<int>, bits: seq<bool>, labels: seq<JByte>)
  {
    && 0 <= p < |nodes| == |paths|
    && keys == SortedKeys(nodes[p].Keys)
    && Emitting(order, i, K, keys, j, bits, labels)
    && order[..i + 1] == pre && order[i] == paths[p]
    && Tracks(paths, ids, order) && queue == ids[i + 1..]
    && |order| <= |W|
  }

  /** Visiting, assembled from its parts. */
  lemma VisitingIntro(nodes: seq<map<char, int>>, paths: seq<string>, W: set<string>, p: int, keys: seq<char>,
                      i: nat, K: seq<seq<char>>, j: nat, pre: seq<string>, order: seq<string>, ids: seq<int>,
                      queue: seq<int>, bits: seq<bool>, labels: seq<JByte>)
    requires 0 <= p < |nodes| == |paths| && keys == SortedKeys(nodes[p].Keys)
    requires Emitting(order, i, K, keys, j, bits, labels)
    requires order[..i + 1] == pre && order[i] == paths[p]
    requires Tracks(paths, ids, order) && queue == ids[i + 1..]
    requires |order| <= |W|
    ensures Visiting(nodes, paths, W, p, keys, i, K, j, pre, order, ids, queue, bits, labels)
  {
  }

  /** Appending after position i keeps the first i + 1 entries. */
  lemma PrefixKept(order: seq<string>, x: string, i: nat, pre: seq<string>)
    requires i < |order| && order[..i + 1] == pre
    ensures (order + [x])[..i + 1] == pre && (order + [x])[i] == order[i]
  {
    assert (order + [x])[..i + 1] == order[..i + 1];
  }

  /** One iteration of the inner loop of buildLouds keeps the state. */
  lemma VisitStep(nodes: seq<map<char, int>>, paths: seq<string>, W: set<string>, p: int, keys: seq<char>,
                  i: nat, K: seq<seq<char>>, j: nat, pre: seq<string>, order: seq<string>, ids: seq<int>,
                  queue: seq<int>, bits: seq<bool>, labels: seq<JByte>)
    requires Linked(nodes, paths) && W == NodeStrings(paths)
    requires Visiting(nodes, paths, W, p, keys, i, K, j, pre, order, ids, queue, bits, labels) && j < |keys|
    ensures keys[j] in nodes[p]
    ensures Visiting(nodes, paths, W, p, keys, i, K, j + 1, pre, order + [order[i] + [keys[j]]],
                     ids + [nodes[p][keys[j]]], queue + [nodes[p][keys[j]]], bits + [true], labels + [ToByte(keys[j])])
  {
    var c := keys[j];
    assert c in nodes[p];
    var child := nodes[p][c];
    var x := order[i] + [c];
    var order' := order + [x];
    var ids' := ids + [child];
    EmitChild(order, i, K, keys, j, bits, labels);
    ChildLink(nodes, paths, p, c);
    TracksAppend(paths, ids, order, child, x);
    SliceAppend(ids, child, i + 1);
    PrefixKept(order, x, i, pre);
    TracksNodes(paths, ids', order');
    ListedBound(W, order');
    VisitingIntro(nodes, paths, W, p, keys, i, K, j + 1, pre, order', ids', queue + [child],
                  bits + [true], labels + [ToByte(c)]);
  }

  /**
   * The inner loop of buildLouds for node p: for each key in increasing
   * order, set the next bit, enqueue the child and write the key's byte.
   */
  method EmitChildren(nodes: seq<map<char, int>>, p: int, keys: seq<char>,
                      queue: seq<int>, bits: seq<bool>, labels: seq<JByte>, bitPos: int,
                      ghost paths: seq<string>, ghost W: set<string>, ghost order: seq<string>,
                      ghost ids: seq<int>, ghost i: nat, ghost K: seq<seq<char>>)
    returns (queue': seq<int>, bits': seq<bool>, labels': seq<JByte>, bitPos': int,
             ghost order': seq<string>, ghost ids': seq<int>)
    requires Arena(nodes, paths) && W == NodeStrings(paths)
    requires i < |order|
    requires Visiting(nodes, paths, W, p, keys, i, K, 0, order[..i + 1], order, ids, queue, bits, labels)
    requires bitPos == |bits|
    ensures Visiting(nodes, paths, W, p, keys, i, K, |keys|, order[..i + 1], order', ids', queue', bits', labels')
    ensures bitPos' == |bits'|
  {
    queue', bits', labels', bitPos' := queue, bits, labels, bitPos;
    order', ids' := order, ids;
    for j := 0 to |keys|
      invariant Visiting(nodes, paths, W, p, keys, i, K, j, order[..i + 1], order', ids', queue', bits', labels')
      invariant bitPos' == |bits'|
    {
      var c := keys[j];
      VisitStep(nodes, paths, W, p, keys, i, K, j, order[..i + 1], order', ids', queue', bits', labels');
      bits' := bits' + [true];
      var child := nodes[p][c];
      queue' := queue' + [child];
      labels' := labels' + [ToByte(c)];
      bitPos' := bitPos' + 1;
      ids' := ids' + [child];
      order' := order' + [order'[i] + [c]];
    }
  }

  /**
   * The state of buildLouds between two nodes: the first i listed nodes are
   * visited, K holds their sorted keys, and the queue holds the arena ids of
   * the listed nodes not yet visited.
   */
  ghost predicate Scanning(nodes: seq<map<char, int>>, paths: seq<string>, W: set<string>,
                           i: nat, K: seq<seq<char>>, order: seq<string>, ids: seq<int>,
                           queue: seq<int>, bits: seq<bool>, labels: seq<JByte>)
  {
    && Traversal(order, i, K, bits, labels)
    && K == KidLists(W, order[..i])
    && Tracks(paths, ids, order) && queue == ids[i..]
    && |order| <= |W|
  }

  lemma ScanStart(nodes: seq<map<char, int>>, paths: seq<string>)
    requires Arena(nodes, paths)
    ensures Scanning(nodes, paths, NodeStrings(paths), 0, [], [[]], [0], [0], [], [])
  {
    TraversalStart();
    var order: seq<string> := [[]];
    assert order[..0] == [];
    assert paths[0] in NodeStrings(paths);
    SubsetCardinality({[]}, NodeStrings(paths));
  }

  /** Taking node p off the queue: its keys, sorted, are the labels of its children. */
  lemma ScanNode(nodes: seq<map<char, int>>, paths: seq<string>, W: set<string>,
                 i: nat, K: seq<seq<char>>, order: seq<string>, ids: seq<int>,
                 queue: seq<int>, bits: seq<bool>, labels: seq<JByte>)
    requires Arena(nodes, paths) && W == NodeStrings(paths)
    requires Scanning(nodes, paths, W, i, K, order, ids, queue, bits, labels) && |queue| > 0
    ensures i < |order| && 0 <= queue[0] < |nodes|
    ensures SortedKeys(nodes[queue[0]].Keys) == Kids(W, order[i])
    ensures Visiting(nodes, paths, W, queue[0], SortedKeys(nodes[queue[0]].Keys), i, K, 0, order[..i + 1],
                     order, ids, queue[1..], bits, labels)
  {
    var p := queue[0];
    assert ids[i] == p;
    ChildKeys(nodes, paths, p);
    BeginNode(order, i, K, SortedKeys(nodes[p].Keys), bits, labels);
  }

  /** Finishing node i: its terminator bit is written and its keys join K. */
  lemma ScanNext(nodes: seq<map<char, int>>, paths: seq<string>, W: set<string>, p: int, keys: seq<char>,
                 i: nat, K: seq<seq<char>>, pre: seq<string>, order: seq<string>, ids: seq<int>,
                 queue: seq<int>, bits: seq<bool>, labels: seq<JByte>)
    requires Visiting(nodes, paths, W, p, keys, i, K, |keys|, pre, order, ids, queue, bits, labels)
    requires |pre| == i + 1 && keys == Kids(W, pre[i]) && K == KidLists(W, pre[..i])
    ensures Scanning(nodes, paths, W, i + 1, K + [keys], order, ids, queue, bits + [false], labels)
  {
    EndNode(order, i, K, keys, bits, labels);
    KidListsNext(W, order, pre, i, K, keys);
  }

  /**
   * buildLouds: insert the vocabulary into a pointer trie, then visit it
   * breadth-first from a queue, children in increasing key order; each child
   * sets one bit and writes its key's byte, each node ends with one clear bit.
   * The result encodes the trie of all prefixes of the words; the ghost
   * output is the breadth-first listing of the node strings.
   */
  method BuildLouds(vocab: seq<string>) returns (l: Louds, ghost order: seq<string>)
    ensures Encodes(l, PrefixClosure(vocab), order)
    ensures |l.labels| + 1 == |PrefixClosure(vocab)| && l.bitLen == 2 * |l.labels| + 1
    ensures Ones(l.bits, l.bitLen) == |l.labels|
  {
    var t := BuildTrie(vocab);
    var nodes := t.children;
    ghost var paths := t.paths;
    ghost var W := NodeStrings(paths);
    PrefixClosureIsPrefixClosed(vocab);

    var queue: seq<int> := [0];
    var bits: seq<bool> := [];
    var labels: seq<JByte> := [];
    var bitPos := 0;
    ghost var ids: seq<int> := [0];
    ghost var i := 0;
    ghost var K: seq<seq<char>> := [];
    order := [[]];
    ScanStart(nodes, paths);
    while |queue| > 0
      invariant Arena(nodes, paths) && W == NodeStrings(paths)
      invariant Scanning(nodes, paths, W, i, K, order, ids, queue, bits, labels) && bitPos == |bits|
      decreases |W| - i
    {
      ScanNode(nodes, paths, W, i, K, order, ids, queue, bits, labels);
      var p := queue[0];
      queue := queue[1..];
      var keys := SortedKeys(nodes[p].Keys);
      ghost var pre := order[..i + 1];
      queue, bits, labels, bitPos, order, ids := EmitChildren(nodes, p, keys, queue, bits, labels, bitPos, paths, W, order, ids, i, K);
      ScanNext(nodes, paths, W, p, keys, i, K, pre, order, ids, queue, bits, labels);
      bits := bits + [false];
      bitPos := bitPos + 1;
      K := K + [keys];
      i := i + 1;
    }
    ScanEnd(nodes, paths, W, i, K, order, ids, bits, labels);
    l := Louds(bits, labels, bitPos);
    EncodesCounts(l, PrefixClosure(vocab), order);
  }

  /** With the queue empty every listed node is visited: the result encodes W. */
  lemma ScanEnd(nodes: seq<map<char, int>>, paths: seq<string>, W: set<string>,
                i: nat, K: seq<seq<char>>, order: seq<string>, ids: seq<int>,
                bits: seq<bool>, labels: seq<JByte>)
    requires Arena(nodes, paths) && W == NodeStrings(paths)
    requires Scanning(nodes, paths, W, i, K, order, ids, [], bits, labels) && PrefixClosed(W)
    ensures Encodes(Louds(bits, labels, |bits|), W, order)
  {
    TracksNodes(paths, ids, order);
    TraversalDone(W, order, K, bits, labels);
  }
}
