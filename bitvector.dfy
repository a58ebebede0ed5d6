/**
 * The part of java.util.BitSet that the LOUDS trie relies on, together with
 * its four navigation queries rank1, rank0, select1 and select0.
 *
 * A bit set is a sequence of booleans; every position at or beyond the end of
 * the sequence reads as clear, as an unset BitSet position does.
 */
module BitVector {

  /** BitSet.get(i): the bit at position i (clear outside the sequence). */
  function Get(bits: seq<bool>, i: int): bool
  {
    0 <= i < |bits| && bits[i]
  }

  /** BitSet.length(): the index of the highest set bit plus one, or 0 when no bit is set. */
  function Length(bits: seq<bool>): (n: nat)
    ensures n <= |bits|
    ensures n > 0 ==> bits[n - 1]
    ensures forall i :: n <= i < |bits| ==> !bits[i]
  {
    if |bits| == 0 then 0
    else if bits[|bits| - 1] then |bits|
    else Length(bits[..|bits| - 1])
  }

  /** Number of set bits among the positions 0 .. n-1. */
  function Ones(bits: seq<bool>, n: int): nat
    decreases n
  {
    if n <= 0 then 0 else Ones(bits, n - 1) + (if Get(bits, n - 1) then 1 else 0)
  }

  /** Number of clear bits among the positions 0 .. n-1. */
  function Zeros(bits: seq<bool>, n: int): nat
    decreases n
  {
    if n <= 0 then 0 else Zeros(bits, n - 1) + (if Get(bits, n - 1) then 0 else 1)
  }

  /** The set and the clear positions below n, as sets; they give rank an independent meaning. */
  function SetPositions(bits: seq<bool>, n: int): set<int>
  {
    set i | 0 <= i < n && Get(bits, i)
  }

  function ClearPositions(bits: seq<bool>, n: int): set<int>
  {
    set i | 0 <= i < n && !Get(bits, i)
  }

  lemma {:induction false} OnesCountsSetPositions(bits: seq<bool>, n: int)
    ensures Ones(bits, n) == |SetPositions(bits, n)|
    decreases n
  {
    if n <= 0 {
      assert SetPositions(bits, n) == {};
    } else {
      OnesCountsSetPositions(bits, n - 1);
      if Get(bits, n - 1) {
        assert SetPositions(bits, n) == SetPositions(bits, n - 1) + {n - 1};
      } else {
        assert SetPositions(bits, n) == SetPositions(bits, n - 1);
      }
    }
  }

  lemma {:induction false} ZerosCountsClearPositions(bits: seq<bool>, n: int)
    ensures Zeros(bits, n) == |ClearPositions(bits, n)|
    decreases n
  {
    if n <= 0 {
      assert ClearPositions(bits, n) == {};
    } else {
      ZerosCountsClearPositions(bits, n - 1);
      if Get(bits, n - 1) {
        assert ClearPositions(bits, n) == ClearPositions(bits, n - 1);
      } else {
        assert ClearPositions(bits, n) == ClearPositions(bits, n - 1) + {n - 1};
      }
    }
  }

  /** Every position below n is either set or clear. */
  lemma {:induction false} OnesPlusZeros(bits: seq<bool>, n: int)
    requires n >= 0
    ensures Ones(bits, n) + Zeros(bits, n) == n
    decreases n
  {
    if n > 0 {
      OnesPlusZeros(bits, n - 1);
    }
  }

  /** rank1(pos) = bs.get(0, pos + 1).cardinality(): the set bits among positions 0 .. pos. */
  function Rank1(bits: seq<bool>, pos: int): (r: nat)
    requires pos >= -1
    ensures r <= pos + 1
  {
    OnesPlusZeros(bits, pos + 1);
    Ones(bits, pos + 1)
  }

  /** rank0(pos) = (pos + 1) - rank1(pos): the clear bits among positions 0 .. pos. */
  function Rank0(bits: seq<bool>, pos: int): (r: nat)
    requires pos >= -1
    ensures r == Zeros(bits, pos + 1)
  {
    OnesPlusZeros(bits, pos + 1);
    (pos + 1) - Rank1(bits, pos)
  }

  /** rank1 counts the set positions in [0, pos] and rank0 the clear ones. */
  lemma RankCounts(bits: seq<bool>, pos: int)
    requires pos >= -1
    ensures Rank1(bits, pos) == |set i | 0 <= i <= pos && Get(bits, i)|
    ensures Rank0(bits, pos) == |set i | 0 <= i <= pos && !Get(bits, i)|
    ensures Rank0(bits, pos) + Rank1(bits, pos) == pos + 1
  {
    OnesCountsSetPositions(bits, pos + 1);
    ZerosCountsClearPositions(bits, pos + 1);
    OnesPlusZeros(bits, pos + 1);
    assert (set i | 0 <= i <= pos && Get(bits, i)) == SetPositions(bits, pos + 1);
    assert (set i | 0 <= i <= pos && !Get(bits, i)) == ClearPositions(bits, pos + 1);
  }

  lemma {:induction false} OnesMonotone(bits: seq<bool>, a: int, b: int)
    requires 0 <= a <= b
    ensures Ones(bits, a) <= Ones(bits, b) <= Ones(bits, a) + (b - a)
    decreases b
  {
    if a < b {
      OnesMonotone(bits, a, b - 1);
    }
  }

  lemma {:induction false} ZerosMonotone(bits: seq<bool>, a: int, b: int)
    requires 0 <= a <= b
    ensures Zeros(bits, a) <= Zeros(bits, b)
    decreases b
  {
    if a < b {
      ZerosMonotone(bits, a, b - 1);
    }
  }

  /** Ones only looks at the first n positions. */
  lemma {:induction false} OnesAgree(s: seq<bool>, t: seq<bool>, n: int)
    requires 0 <= n <= |s| && n <= |t| && s[..n] == t[..n]
    ensures Ones(s, n) == Ones(t, n)
    decreases n
  {
    if n > 0 {
      assert s[n - 1] == s[..n][n - 1] == t[..n][n - 1] == t[n - 1];
      assert s[..n - 1] == s[..n][..n - 1] == t[..n][..n - 1] == t[..n - 1];
      OnesAgree(s, t, n - 1);
    }
  }

  lemma {:induction false} OnesConcat(a: seq<bool>, b: seq<bool>, m: int)
    requires 0 <= m <= |b|
    ensures Ones(a + b, |a| + m) == Ones(a, |a|) + Ones(b, m)
    decreases m
  {
    if m == 0 {
      OnesAgree(a + b, a, |a|);
    } else {
      OnesConcat(a, b, m - 1);
      assert Get(a + b, |a| + m - 1) == Get(b, m - 1);
    }
  }

  /** Two set positions with the same rank1 are the same position. */
  lemma SetPositionOfRank(bits: seq<bool>, p: int, q: int)
    requires 0 <= p && 0 <= q && Get(bits, p) && Get(bits, q)
    requires Rank1(bits, p) == Rank1(bits, q)
    ensures p == q
  {
    if p < q {
      OnesMonotone(bits, p + 1, q);
    } else if q < p {
      OnesMonotone(bits, q + 1, p);
    }
  }

  /** Two clear positions with the same rank0 are the same position. */
  lemma ClearPositionOfRank(bits: seq<bool>, p: int, q: int)
    requires 0 <= p && 0 <= q && !Get(bits, p) && !Get(bits, q)
    requires Rank0(bits, p) == Rank0(bits, q)
    ensures p == q
  {
    if p < q {
      OnesMonotone(bits, p + 1, q);
    } else if q < p {
      OnesMonotone(bits, q + 1, p);
    }
  }

  /**
   * select1(k): the position of the (k+1)-th set bit, scanning up to
   * BitSet.length(); -1 when there are not that many set bits.
   */
  method Select1(bits: seq<bool>, k: int) returns (p: int)
    ensures p == -1 <==> (k < 0 || Ones(bits, Length(bits)) <= k)
    ensures p != -1 ==> 0 <= p < Length(bits) && bits[p] && Rank1(bits, p) == k + 1
  {
    var count := 0;
    var i := 0;
    while i < Length(bits)
      invariant 0 <= i <= Length(bits)
      invariant count == Ones(bits, i)
      invariant k < 0 || count <= k
    {
      if Get(bits, i) {
        if count == k {
          OnesMonotone(bits, i + 1, Length(bits));
          return i;
        }
        count := count + 1;
      }
      i := i + 1;
    }
    return -1;
  }

  /**
   * select0(k): the position of the (k+1)-th clear bit, scanning only up to
   * BitSet.length(); clear bits after the highest set bit are never found.
   */
  method Select0(bits: seq<bool>, k: int) returns (p: int)
    ensures p == -1 <==> (k < 0 || Zeros(bits, Length(bits)) <= k)
    ensures p != -1 ==> 0 <= p < Length(bits) && !bits[p] && Rank0(bits, p) == k + 1
  {
    var count := 0;
    var i := 0;
    while i < Length(bits)
      invariant 0 <= i <= Length(bits)
      invariant count == Zeros(bits, i)
      invariant k < 0 || count <= k
    {
      if !Get(bits, i) {
        if count == k {
          OnesPlusZeros(bits, i + 1);
          ZerosMonotone(bits, i + 1, Length(bits));
          return i;
        }
        count := count + 1;
      }
      i := i + 1;
    }
    return -1;
  }
}
