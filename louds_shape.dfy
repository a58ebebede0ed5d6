/**
 * The shape of a LOUDS bit string: given the number of children of every node
 * in breadth-first order (its degree sequence d), the bits are, node after
 * node, one set bit per child followed by one clear terminator bit.
 *
 * Node 0 is the root; the node whose own edge is the (k+1)-th set bit is node
 * k+1. The lemmas below say where each node's bits lie and what rank1 and
 * rank0 give there; the succinct trie navigates with exactly these facts.
 */
module LoudsShape {
  import opened BitVector

  /** Total of a degree sequence: the number of edges. */
  function Sum(d: seq<nat>): nat
  {
    if |d| == 0 then 0 else Sum(d[..|d| - 1]) + d[|d| - 1]
  }

  /** One node's bits: a 1 per child edge, then the terminating 0. */
  function Block(n: nat): seq<bool>
  {
    seq(n, _ => true) + [false]
  }

  /** The LOUDS bit string of a degree sequence. */
  function Unary(d: seq<nat>): seq<bool>
  {
    if |d| == 0 then [] else Unary(d[..|d| - 1]) + Block(d[|d| - 1])
  }

  /** Position of the first bit of node i: the bits of the nodes before it. */
  function Start(d: seq<nat>, i: nat): nat
    requires i <= |d|
  {
    Sum(d[..i]) + i
  }

  lemma {:induction false} UnaryLength(d: seq<nat>)
    ensures |Unary(d)| == Sum(d) + |d|
    decreases |d|
  {
    if |d| > 0 {
      UnaryLength(d[..|d| - 1]);
    }
  }

  lemma {:induction false} BlockOnes(n: nat, j: nat)
    requires j <= n + 1
    ensures Ones(Block(n), j) == if j <= n then j else n
    decreases j
  {
    if j > 0 {
      BlockOnes(n, j - 1);
    }
  }

  /** A LOUDS string has one set bit per edge. */
  lemma {:induction false} UnaryOnes(d: seq<nat>)
    ensures Ones(Unary(d), |Unary(d)|) == Sum(d)
    decreases |d|
  {
    if |d| > 0 {
      var d' := d[..|d| - 1];
      UnaryOnes(d');
      OnesConcat(Unary(d'), Block(d[|d| - 1]), |Block(d[|d| - 1])|);
      BlockOnes(d[|d| - 1], d[|d| - 1] + 1);
    }
  }

  /** The bits of the first i nodes are a prefix of the whole string. */
  lemma {:induction false} UnaryPrefix(d: seq<nat>, i: nat)
    requires i <= |d|
    ensures |Unary(d[..i])| <= |Unary(d)|
    ensures Unary(d)[..|Unary(d[..i])|] == Unary(d[..i])
    decreases |d|
  {
    if i < |d| {
      var d' := d[..|d| - 1];
      assert d'[..i] == d[..i];
      UnaryPrefix(d', i);
      assert Unary(d) == Unary(d') + Block(d[|d| - 1]);
    } else {
      assert d[..i] == d;
    }
  }

  lemma SumPrefixStep(d: seq<nat>, i: nat)
    requires i < |d|
    ensures Sum(d[..i + 1]) == Sum(d[..i]) + d[i]
    ensures Unary(d[..i + 1]) == Unary(d[..i]) + Block(d[i])
  {
    assert d[..i + 1][..i] == d[..i];
  }

  /** The bits of node i sit at Start(d, i) onwards, inside the string. */
  lemma NodeBlock(d: seq<nat>, i: nat)
    requires i < |d|
    ensures Start(d, i + 1) == Start(d, i) + d[i] + 1 <= |Unary(d)|
    ensures Unary(d)[..Start(d, i + 1)] == Unary(d[..i]) + Block(d[i])
    ensures |Unary(d[..i])| == Start(d, i)
  {
    SumPrefixStep(d, i);
    UnaryLength(d[..i]);
    UnaryLength(d[..i + 1]);
    UnaryPrefix(d, i + 1);
  }

  /** Ones over a prefix only depends on that prefix. */
  lemma OnesOfPrefix(u: seq<bool>, k: nat, n: nat)
    requires n <= k <= |u|
    ensures Ones(u, n) == Ones(u[..k], n)
  {
    assert u[..k][..n] == u[..n];
    OnesAgree(u, u[..k], n);
  }

  /**
   * Inside node i's block, at offset j <= d[i]: the bit is set exactly
   * when j < d[i], and the bits before it hold Sum(d[..i]) + j ones.
   */
  lemma InBlock(d: seq<nat>, i: nat, j: nat)
    requires i < |d| && j <= d[i]
    ensures Start(d, i + 1) == Start(d, i) + d[i] + 1
    ensures Start(d, i) + j < |Unary(d)|
    ensures Unary(d)[Start(d, i) + j] == (j < d[i])
    ensures Ones(Unary(d), Start(d, i) + j) == Sum(d[..i]) + j
  {
    NodeBlock(d, i);
    var u := Unary(d);
    var k := Start(d, i + 1);
    var p := Start(d, i) + j;
    var a, b := Unary(d[..i]), Block(d[i]);
    assert u[..k] == a + b;
    assert u[p] == u[..k][p] == b[j];
    OnesOfPrefix(u, k, p);
    OnesConcat(a, b, j);
    BlockOnes(d[i], j);
    UnaryOnes(d[..i]);
  }

  /**
   * The j-th child edge of node i: a set bit whose rank1 is the child's
   * node id and whose rank0 is i, the parent's node id.
   */
  lemma ChildBit(d: seq<nat>, i: nat, j: nat)
    requires i < |d| && j < d[i]
    ensures Start(d, i) + j < |Unary(d)|
    ensures Unary(d)[Start(d, i) + j]
    ensures Rank1(Unary(d), Start(d, i) + j) == Sum(d[..i]) + j + 1
    ensures Rank0(Unary(d), Start(d, i) + j) == i
  {
    InBlock(d, i, j);
    var p := Start(d, i) + j;
    assert Ones(Unary(d), p + 1) == Ones(Unary(d), p) + 1;
    OnesPlusZeros(Unary(d), p + 1);
  }

  /** The terminator of node i, right after its d[i] edges: a clear bit whose rank0 is i + 1. */
  lemma EndBit(d: seq<nat>, i: nat)
    requires i < |d|
    ensures Start(d, i + 1) == Start(d, i) + d[i] + 1
    ensures Start(d, i) + d[i] < |Unary(d)|
    ensures !Unary(d)[Start(d, i) + d[i]]
    ensures Rank0(Unary(d), Start(d, i) + d[i]) == i + 1
  {
    InBlock(d, i, d[i]);
    var p := Start(d, i) + d[i];
    assert Ones(Unary(d), p + 1) == Ones(Unary(d), p);
    OnesPlusZeros(Unary(d), p + 1);
  }

  lemma {:induction false} SumPrefixMonotone(d: seq<nat>, i: nat, j: nat)
    requires i <= j <= |d|
    ensures Sum(d[..i]) <= Sum(d[..j])
    decreases j
  {
    if i < j {
      SumPrefixStep(d, j - 1);
      SumPrefixMonotone(d, i, j - 1);
    }
  }

  /** Every edge number k in 1 .. Sum(d) is the j-th child edge of exactly one node i. */
  lemma {:induction false} LocateEdge(d: seq<nat>, k: nat) returns (i: nat, j: nat)
    requires 1 <= k <= Sum(d)
    ensures i < |d| && j < d[i] && k == Sum(d[..i]) + j + 1
    decreases |d|
  {
    var n := |d| - 1;
    SumPrefixStep(d, n);
    assert d[..n + 1] == d;
    if k > Sum(d[..n]) {
      i, j := n, k - Sum(d[..n]) - 1;
    } else {
      i, j := LocateEdge(d[..n], k);
      assert d[..n][..i] == d[..i];
    }
  }
}
