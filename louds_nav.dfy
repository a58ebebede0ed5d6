/**
 * Child lookup in a LOUDS trie, described on the listing: which node's child
 * edges the scan visits, which of them matches a character, and the node a
 * whole string leads to from the root.
 */
module LoudsNav {
  import opened JavaText
  import opened BitVector
  import opened LoudsShape
  import opened Shortlex
  import opened LoudsLists

  /**
   * Index of the first label whose byte equals the character's value (a byte
   * compared with a char), or |ks| when there is none.
   */
  function FirstMatch(ks: seq<char>, c: char): (j: nat)
    ensures j <= |ks|
    ensures forall i :: 0 <= i < j ==> ToByte(ks[i]) != c as int
    ensures j < |ks| ==> ToByte(ks[j]) == c as int
  {
    if |ks| == 0 then 0
    else if ToByte(ks[0]) == c as int then 0
    else 1 + FirstMatch(ks[1..], c)
  }

  /** The scan passes a label whose byte differs from c without passing the first match. */
  lemma FirstMatchNext(ks: seq<char>, c: char, j: nat)
    requires j <= FirstMatch(ks, c) && j < |ks| && ToByte(ks[j]) != c as int
    ensures j + 1 <= FirstMatch(ks, c)
  {
  }

  /**
   * The node whose child edges the scan starts at for node nodeId. For
   * nodeId >= 1 the scan starts after select0(nodeId - 1); when that clear bit
   * lies beyond BitSet.length(), select0 gives -1 and the scan starts at 0,
   * the root's first edge.
   */
  ghost function Scanned(l: Louds, K: seq<seq<char>>, nodeId: nat): (r: nat)
    requires nodeId < |K|
    ensures r < |K| && (r == 0 || r == nodeId)
  {
    if nodeId == 0 || Length(l.bits) <= EdgePos(K, nodeId, 0) - 1 then 0 else nodeId
  }

  /** The node id the child scan of buildNodeIdPointers yields for character c, or -1. */
  ghost function Step(l: Louds, order: seq<string>, K: seq<seq<char>>, nodeId: nat, c: char): (r: int)
    requires Sorted(order) && FixedPoint(order, K) && Layout(l, K)
    requires nodeId < |order|
    ensures -1 <= r < |order|
    ensures r == -1 <==> FirstMatch(K[Scanned(l, K, nodeId)], c) == |K[Scanned(l, K, nodeId)]|
    ensures r != -1 ==> 1 <= r && order[r] == order[Scanned(l, K, nodeId)] + [K[Scanned(l, K, nodeId)][FirstMatch(K[Scanned(l, K, nodeId)], c)]]
  {
    var s := Scanned(l, K, nodeId);
    var j := FirstMatch(K[s], c);
    if j == |K[s]| then -1
    else
      ChildEdge(l, order, K, s, j);
      EdgeId(K, s, j)
  }

  /** The node id that walking w from the root reaches, or -1 when some step finds no child. */
  ghost function Navigate(l: Louds, order: seq<string>, K: seq<seq<char>>, w: string): (r: int)
    requires Sorted(order) && FixedPoint(order, K) && Layout(l, K)
    ensures -1 <= r < |order|
    decreases |w|
  {
    if |w| == 0 then 0
    else
      var p := Navigate(l, order, K, w[..|w| - 1]);
      if p == -1 then -1 else Step(l, order, K, p, w[|w| - 1])
  }

  /** A node with children is scanned at its own edges. */
  lemma ScannedWithChildren(l: Louds, order: seq<string>, K: seq<seq<char>>, m: nat)
    requires Sorted(order) && FixedPoint(order, K) && Layout(l, K)
    requires m < |order| && |K[m]| >= 1
    ensures Scanned(l, K, m) == m
  {
    if m >= 1 {
      ChildrenStart(l, order, K, m);
    }
  }

  /**
   * Among labels in increasing order, the first whose byte equals an ASCII
   * character c is c itself: every label before it is smaller, hence ASCII
   * and its own byte.
   */
  lemma FirstMatchAscii(ks: seq<char>, c: char, j: nat)
    requires forall a, b :: 0 <= a < b < |ks| ==> ks[a] < ks[b]
    requires j < |ks| && ks[j] == c && c as int < 128
    ensures FirstMatch(ks, c) == j
  {
    AsciiByte(c);
  }

  /** A character no byte can equal is never matched. */
  lemma FirstMatchNonAscii(ks: seq<char>, c: char)
    requires c as int >= 128
    ensures FirstMatch(ks, c) == |ks|
  {

  }

  /** Looking up an ASCII label of node m leads to the child with that label. */
  lemma StepFindsChild(l: Louds, order: seq<string>, K: seq<seq<char>>, m: nat, j: nat)
    requires Sorted(order) && FixedPoint(order, K) && Layout(l, K)
    requires m < |order| && j < |K[m]| && K[m][j] as int < 128
    requires forall a, b :: 0 <= a < b < |K[m]| ==> K[m][a] < K[m][b]
    ensures Step(l, order, K, m, K[m][j]) == EdgeId(K, m, j)
    ensures order[EdgeId(K, m, j)] == order[m] + [K[m][j]]
  {
    ScannedWithChildren(l, order, K, m);
    FirstMatchAscii(K[m], K[m][j], j);
    ChildEdge(l, order, K, m, j);
  }

  /** Looking up a non-ASCII character always fails. */
  lemma StepNonAscii(l: Louds, order: seq<string>, K: seq<seq<char>>, m: nat, c: char)
    requires Sorted(order) && FixedPoint(order, K) && Layout(l, K)
    requires m < |order| && c as int >= 128
    ensures Step(l, order, K, m, c) == -1
  {
    FirstMatchNonAscii(K[Scanned(l, K, m)], c);
  }
}
