/**
 * A breadth-first node listing and the LOUDS structure laid out from it.
 *
 * Given the listed node strings xs and, for each, the labels of its children
 * in visiting order (K, parallel to xs), the children of the listing are the
 * nodes extended by their labels, node after node; the degree sequence is the
 * number of labels per node; the label bytes are all labels cast to bytes in
 * the same order. A listing is complete when it is the root followed by its
 * own children; then node id k is position k of the listing, and the bits and
 * labels support parent and child navigation through rank and select.
 */
module LoudsLists {
  import opened JavaText
  import opened BitVector
  import opened LoudsShape
  import opened Shortlex

  function Extend(x: string, cs: seq<char>): (r: seq<string>)
    ensures |r| == |cs|
    ensures forall j :: 0 <= j < |cs| ==> r[j] == x + [cs[j]]
  {
    seq(|cs|, j requires 0 <= j < |cs| => x + [cs[j]])
  }

  function Bytes(cs: seq<char>): (r: seq<JByte>)
    ensures |r| == |cs|
    ensures forall j :: 0 <= j < |cs| ==> r[j] == ToByte(cs[j])
  {
    seq(|cs|, j requires 0 <= j < |cs| => ToByte(cs[j]))
  }

  /** The number of children of each listed node. */
  function Degrees(K: seq<seq<char>>): (d: seq<nat>)
    ensures |d| == |K|
    ensures forall m :: 0 <= m < |K| ==> d[m] == |K[m]|
  {
    seq(|K|, m requires 0 <= m < |K| => |K[m]|)
  }

  /** The children of the listed nodes, node after node, each node's in label order. */
  function Children(xs: seq<string>, K: seq<seq<char>>): seq<string>
    requires |xs| == |K|
  {
    if |xs| == 0 then [] else Children(xs[..|xs| - 1], K[..|K| - 1]) + Extend(xs[|xs| - 1], K[|K| - 1])
  }

  /** The byte labels of those children, in the same order. */
  function Labels(K: seq<seq<char>>): seq<JByte>
  {
    if |K| == 0 then [] else Labels(K[..|K| - 1]) + Bytes(K[|K| - 1])
  }

  /** The LOUDS structure: the bit set as a sequence, the labels and the bit length. */
  datatype Louds = Louds(bits: seq<bool>, labels: seq<JByte>, bitLen: int)

  /** The listing is the root followed by the children of its own nodes. */
  ghost predicate FixedPoint(order: seq<string>, K: seq<seq<char>>)
  {
    && |K| == |order|
    && |order| == |Children(order, K)| + 1
    && order[0] == []
    && forall q {:trigger Children(order, K)[q]} :: 0 <= q < |Children(order, K)| ==> order[q + 1] == Children(order, K)[q]
  }

  lemma FixedPointEquation(order: seq<string>, K: seq<seq<char>>)
    requires |K| == |order|
    ensures FixedPoint(order, K) <==> order == [[]] + Children(order, K)
  {
    if FixedPoint(order, K) {
      assert forall k :: 0 <= k < |order| ==> order[k] == ([[]] + Children(order, K))[k];
    }
  }

  /** The bits are the unary degree sequence and the labels the children's label bytes. */
  ghost predicate Layout(l: Louds, K: seq<seq<char>>)
  {
    && l.bits == Unary(Degrees(K))
    && l.labels == Labels(K)
    && l.bitLen == |l.bits|
  }

  ghost predicate IsPrefix<T>(a: seq<T>, b: seq<T>)
  {
    |a| <= |b| && b[..|a|] == a
  }

  lemma PrefixTransitive<T>(a: seq<T>, b: seq<T>, c: seq<T>)
    requires IsPrefix(a, b) && IsPrefix(b, c)
    ensures IsPrefix(a, c)
  {
    assert c[..|a|] == c[..|b|][..|a|];
  }

  lemma IndexConcat<T>(a: seq<T>, b: seq<T>, j: nat)
    requires j < |b|
    ensures (a + b)[|a| + j] == b[j]
  {
  }

  lemma DegreesPrefix(K: seq<seq<char>>, i: nat)
    requires i <= |K|
    ensures Degrees(K[..i]) == Degrees(K)[..i]
  {
  }

  lemma {:induction false} ChildCount(xs: seq<string>, K: seq<seq<char>>)
    requires |xs| == |K|
    ensures |Children(xs, K)| == Sum(Degrees(K))
    ensures |Labels(K)| == Sum(Degrees(K))
    decreases |xs|
  {
    if |xs| > 0 {
      ChildCount(xs[..|xs| - 1], K[..|K| - 1]);
      DegreesPrefix(K, |K| - 1);
    }
  }

  /** The children of a prefix of the listing come first. */
  lemma {:induction false} ChildrenPrefix(xs: seq<string>, K: seq<seq<char>>, i: nat)
    requires |xs| == |K| && i <= |xs|
    ensures IsPrefix(Children(xs[..i], K[..i]), Children(xs, K))
    decreases |xs|
  {
    if i < |xs| {
      var xs', K' := xs[..|xs| - 1], K[..|K| - 1];
      assert xs'[..i] == xs[..i] && K'[..i] == K[..i];
      ChildrenPrefix(xs', K', i);
      PrefixTransitive(Children(xs[..i], K[..i]), Children(xs', K'), Children(xs, K));
    } else {
      assert xs[..i] == xs && K[..i] == K;
    }
  }

  lemma {:induction false} LabelsPrefix(K: seq<seq<char>>, i: nat)
    requires i <= |K|
    ensures IsPrefix(Labels(K[..i]), Labels(K))
    decreases |K|
  {
    if i < |K| {
      var K' := K[..|K| - 1];
      assert K'[..i] == K[..i];
      LabelsPrefix(K', i);
      PrefixTransitive(Labels(K[..i]), Labels(K'), Labels(K));
    } else {
      assert K[..i] == K;
    }
  }

  lemma ChildrenStep(xs: seq<string>, K: seq<seq<char>>, i: nat)
    requires |xs| == |K| && i < |xs|
    ensures Children(xs[..i + 1], K[..i + 1]) == Children(xs[..i], K[..i]) + Extend(xs[i], K[i])
    ensures Labels(K[..i + 1]) == Labels(K[..i]) + Bytes(K[i])
  {
    assert xs[..i + 1][..i] == xs[..i];
    assert K[..i + 1][..i] == K[..i];
  }

  /**
   * The j-th child of listed node m is child number Sum(degrees before m) + j,
   * whose label byte is (byte) K[m][j].
   */
  lemma ChildAt(xs: seq<string>, K: seq<seq<char>>, m: nat, j: nat)
    requires |xs| == |K| && m < |xs| && j < |K[m]|
    ensures Sum(Degrees(K)[..m]) + j < |Children(xs, K)| == |Labels(K)|
    ensures Children(xs, K)[Sum(Degrees(K)[..m]) + j] == xs[m] + [K[m][j]]
    ensures Labels(K)[Sum(Degrees(K)[..m]) + j] == ToByte(K[m][j])
  {
    var q := Sum(Degrees(K)[..m]) + j;
    DegreesPrefix(K, m);
    ChildCount(xs[..m], K[..m]);
    ChildCount(xs, K);
    ChildrenStep(xs, K, m);
    ChildrenPrefix(xs, K, m + 1);
    LabelsPrefix(K, m + 1);
    var n0, l0 := Children(xs[..m], K[..m]), Labels(K[..m]);
    IndexConcat(n0, Extend(xs[m], K[m]), j);
    IndexConcat(l0, Bytes(K[m]), j);
    assert Children(xs, K)[q] == Children(xs[..m + 1], K[..m + 1])[q];
    assert Labels(K)[q] == Labels(K[..m + 1])[q];
  }

  /** Every child is one of the listed nodes extended by one of its labels. */
  lemma {:induction false} ChildOf(xs: seq<string>, K: seq<seq<char>>, q: nat) returns (m: nat, j: nat)
    requires |xs| == |K| && q < |Children(xs, K)|
    ensures m < |xs| && j < |K[m]|
    ensures Children(xs, K)[q] == xs[m] + [K[m][j]]
    decreases |xs|
  {
    var xs', K' := xs[..|xs| - 1], K[..|K| - 1];
    if q < |Children(xs', K')| {
      m, j := ChildOf(xs', K', q);
    } else {
      m, j := |xs| - 1, q - |Children(xs', K')|;
    }
  }

  /** Listing one more node: its children, edges and labels come after those of the nodes before it. */
  lemma LayoutStep(xs: seq<string>, K: seq<seq<char>>, i: nat)
    requires |xs| == |K| == i + 1
    ensures Children(xs, K) == Children(xs[..i], K[..i]) + Extend(xs[i], K[i])
    ensures Unary(Degrees(K)) == Unary(Degrees(K[..i])) + seq(|K[i]|, _ => true) + [false]
    ensures Labels(K) == Labels(K[..i]) + Bytes(K[i])
  {
    DegreesPrefix(K, i);
    var d := Degrees(K);
    assert d[..|d| - 1] == d[..i];
  }

  /** Emitting one more child label during the traversal of node x. */
  lemma EmitStep(x: string, cs: seq<char>, j: nat)
    requires j < |cs|
    ensures Extend(x, cs[..j + 1]) == Extend(x, cs[..j]) + [x + [cs[j]]]
    ensures Bytes(cs[..j + 1]) == Bytes(cs[..j]) + [ToByte(cs[j])]
    ensures seq(j + 1, _ => true) == seq(j, _ => true) + [true]
  {
  }

  /**
   * In a traversal that has emitted the children of xs and the first j
   * children of x, with every node of xs before x, the next child of x comes
   * after everything emitted so far.
   */
  lemma NextChildLess(xs: seq<string>, K: seq<seq<char>>, x: string, cs: seq<char>, j: nat)
    requires |xs| == |K| && j < |cs|
    requires forall m :: 0 <= m < |xs| ==> Less(xs[m], x)
    requires forall a, b :: 0 <= a < b < |cs| ==> cs[a] < cs[b]
    ensures Less(([[]] + Children(xs, K) + Extend(x, cs[..j]))[|Children(xs, K)| + j], x + [cs[j]])
  {
    var s := [[]] + Children(xs, K) + Extend(x, cs[..j]);
    var q := |Children(xs, K)| + j;
    if j > 0 {
      assert s[q] == x + [cs[j - 1]];
      SiblingLess(x, cs[j - 1], cs[j]);
    } else if q > 0 {
      assert s[q] == Children(xs, K)[q - 1];
      var m, jj := ChildOf(xs, K, q - 1);
      ExtendLess(xs[m], x, K[m][jj], cs[j]);
    } else {
      assert s[q] == [];
    }
  }

  /**
   * A breadth-first traversal that has finished the first i listed nodes,
   * whose child labels are K: the listing so far is the root followed by
   * their children, and the bits and labels are theirs.
   */
  ghost predicate Traversal(order: seq<string>, i: nat, K: seq<seq<char>>, bits: seq<bool>, labels: seq<JByte>)
  {
    && |K| == i <= |order|
    && order == [[]] + Children(order[..i], K)
    && bits == Unary(Degrees(K))
    && labels == Labels(K)
    && Sorted(order)
  }

  /** The traversal is inside listed node i, whose labels are ks, and has emitted the first j of them. */
  ghost predicate Emitting(order: seq<string>, i: nat, K: seq<seq<char>>, ks: seq<char>, j: nat, bits: seq<bool>, labels: seq<JByte>)
  {
    && |K| == i < |order|
    && j <= |ks|
    && order == [[]] + Children(order[..i], K) + Extend(order[i], ks[..j])
    && bits == Unary(Degrees(K)) + seq(j, _ => true)
    && labels == Labels(K) + Bytes(ks[..j])
    && Sorted(order)
  }

  lemma TraversalStart()
    ensures Traversal([[]], 0, [], [], [])
  {
    var order: seq<string> := [[]];
    assert order[..0] == [];
  }

  lemma BeginNode(order: seq<string>, i: nat, K: seq<seq<char>>, ks: seq<char>, bits: seq<bool>, labels: seq<JByte>)
    requires Traversal(order, i, K, bits, labels) && i < |order|
    ensures Emitting(order, i, K, ks, 0, bits, labels)
  {
    assert ks[..0] == [];
  }

  /** Emitting the next child in increasing label order keeps the listing sorted. */
  lemma EmitChild(order: seq<string>, i: nat, K: seq<seq<char>>, ks: seq<char>, j: nat, bits: seq<bool>, labels: seq<JByte>)
    requires Emitting(order, i, K, ks, j, bits, labels) && j < |ks|
    requires forall a, b :: 0 <= a < b < |ks| ==> ks[a] < ks[b]
    ensures Emitting(order + [order[i] + [ks[j]]], i, K, ks, j + 1, bits + [true], labels + [ToByte(ks[j])])
  {
    var x := order[i];
    var y := x + [ks[j]];
    var xs := order[..i];
    EmitStep(x, ks, j);
    forall m | 0 <= m < |xs|
      ensures Less(xs[m], x)
    {
      assert xs[m] == order[m];
    }
    NextChildLess(xs, K, x, ks, j);
    ChildCount(xs, K);
    SortedAppend(order, y);
    var order' := order + [y];
    assert order'[..i] == xs && order'[i] == x;
  }

  lemma EndNode(order: seq<string>, i: nat, K: seq<seq<char>>, ks: seq<char>, bits: seq<bool>, labels: seq<JByte>)
    requires Emitting(order, i, K, ks, |ks|, bits, labels)
    ensures Traversal(order, i + 1, K + [ks], bits + [false], labels)
  {
    var xs := order[..i + 1];
    var K' := K + [ks];
    assert ks[..|ks|] == ks;
    assert xs[..i] == order[..i] && K'[..i] == K;
    LayoutStep(xs, K', i);
  }

  /** When every listed node has been visited, the listing is its own fixed point and the layout is complete. */
  lemma TraversalEnd(order: seq<string>, K: seq<seq<char>>, bits: seq<bool>, labels: seq<JByte>)
    requires Traversal(order, |order|, K, bits, labels)
    ensures FixedPoint(order, K) && Layout(Louds(bits, labels, |bits|), K)
  {
    assert order[..|order|] == order;
    FixedPointEquation(order, K);
  }

  /** Position of the j-th child edge of listed node m in the bit string. */
  function EdgePos(K: seq<seq<char>>, m: nat, j: nat): nat
    requires m <= |K|
  {
    Start(Degrees(K), m) + j
  }

  /** Node id of the j-th child of listed node m. */
  function EdgeId(K: seq<seq<char>>, m: nat, j: nat): nat
    requires m <= |K|
  {
    Sum(Degrees(K)[..m]) + j + 1
  }

  /** Sizes: one label per edge, two bits per edge plus the root's terminator. */
  lemma LayoutCounts(l: Louds, order: seq<string>, K: seq<seq<char>>)
    requires FixedPoint(order, K) && Layout(l, K)
    ensures |order| == |l.labels| + 1
    ensures l.bitLen == 2 * |l.labels| + 1
    ensures Ones(l.bits, l.bitLen) == |l.labels|
  {
    ChildCount(order, K);
    UnaryLength(Degrees(K));
    UnaryOnes(Degrees(K));
  }

  /**
   * The j-th child edge of node m is a set bit before BitSet.length(); its
   * rank1 is the child's id and its rank0 the parent's id; the child's string
   * is the parent's extended by the label, whose byte is stored at index
   * id - 1. A child always has a larger id than its parent.
   */
  lemma ChildEdge(l: Louds, order: seq<string>, K: seq<seq<char>>, m: nat, j: nat)
    requires Sorted(order) && FixedPoint(order, K) && Layout(l, K)
    requires m < |order| && j < |K[m]|
    ensures EdgePos(K, m, j) < Length(l.bits) && l.bits[EdgePos(K, m, j)]
    ensures Rank1(l.bits, EdgePos(K, m, j)) == EdgeId(K, m, j)
    ensures Rank0(l.bits, EdgePos(K, m, j)) == m
    ensures m < EdgeId(K, m, j) < |order| == |l.labels| + 1
    ensures order[EdgeId(K, m, j)] == order[m] + [K[m][j]]
    ensures l.labels[EdgeId(K, m, j) - 1] == ToByte(K[m][j])
  {
    var d := Degrees(K);
    var id := EdgeId(K, m, j);
    ChildBit(d, m, j);
    ChildAt(order, K, m, j);
    assert order[id] == Children(order, K)[id - 1];
    SortedLengths(order);
  }

  /** After the last child edge of node m comes its clear terminator bit. */
  lemma ChildrenEnd(l: Louds, order: seq<string>, K: seq<seq<char>>, m: nat)
    requires FixedPoint(order, K) && Layout(l, K)
    requires m < |order|
    ensures EdgePos(K, m, |K[m]|) < l.bitLen
    ensures !Get(l.bits, EdgePos(K, m, |K[m]|))
  {
    EndBit(Degrees(K), m);
  }

  /** All child edges of node m are set bits below BitSet.length(). */
  lemma ChildrenBits(l: Louds, order: seq<string>, K: seq<seq<char>>, m: nat)
    requires Sorted(order) && FixedPoint(order, K) && Layout(l, K)
    requires m < |order|
    ensures forall j :: 0 <= j < |K[m]| ==> EdgePos(K, m, j) < Length(l.bits) && l.bits[EdgePos(K, m, j)]
  {
    forall j | 0 <= j < |K[m]|
      ensures EdgePos(K, m, j) < Length(l.bits) && l.bits[EdgePos(K, m, j)]
    {
      ChildEdge(l, order, K, m, j);
    }
  }

  /** For a node m >= 1, the terminator of node m - 1 sits right before m's first edge and is the m-th clear bit. */
  lemma Terminator(l: Louds, order: seq<string>, K: seq<seq<char>>, m: nat)
    requires FixedPoint(order, K) && Layout(l, K)
    requires 1 <= m < |order|
    ensures 0 <= EdgePos(K, m, 0) - 1 < |l.bits|
    ensures !l.bits[EdgePos(K, m, 0) - 1]
    ensures Rank0(l.bits, EdgePos(K, m, 0) - 1) == m
  {
    var d := Degrees(K);
    EndBit(d, m - 1);
    assert EdgePos(K, m, 0) - 1 == Start(d, m - 1) + d[m - 1];
  }

  /** A node m >= 1 with children has the terminator before its first edge below BitSet.length(). */
  lemma ChildrenStart(l: Louds, order: seq<string>, K: seq<seq<char>>, m: nat)
    requires Sorted(order) && FixedPoint(order, K) && Layout(l, K)
    requires 1 <= m < |order| && |K[m]| >= 1
    ensures 0 <= EdgePos(K, m, 0) - 1 < Length(l.bits)
  {
    Terminator(l, order, K, m);
    ChildEdge(l, order, K, m, 0);
  }

  /** Every non-root node id is the child of exactly one edge; select1(id - 1) finds it. */
  lemma ParentEdge(l: Louds, order: seq<string>, K: seq<seq<char>>, id: nat) returns (m: nat, j: nat)
    requires Sorted(order) && FixedPoint(order, K) && Layout(l, K)
    requires 1 <= id < |order|
    ensures m < |order| && j < |K[m]| && id == EdgeId(K, m, j)
    ensures Ones(l.bits, Length(l.bits)) > id - 1
  {
    ChildCount(order, K);
    m, j := LocateEdge(Degrees(K), id);
    ChildEdge(l, order, K, m, j);
    OnesMonotone(l.bits, EdgePos(K, m, j) + 1, Length(l.bits));
  }
}
