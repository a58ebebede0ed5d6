/**
 * The two lookups of the LOUDS trie: from a word to its node id
 * (buildNodeIdPointers), walking child scans from the root, and from a node
 * id back to the word (toTerm), climbing parent edges with select1 and rank0.
 */
module SuccinctLookup {
  import opened Base
  import opened JavaText
  import opened BitVector
  import opened LoudsShape
  import opened Shortlex
  import opened LoudsLists
  import opened LoudsSpec
  import opened LoudsNav
  import opened SuccinctTrie
  import opened TrieArena

  /**
   * The inner loop of buildNodeIdPointers for one character: the scan starts
   * after select0(nodeId - 1) (at 0 for the root) and walks the set bits,
   * comparing the label byte of each child with c.
   */
  method ChildByLabel(l: Louds, nodeId: int, c: char, ghost order: seq<string>, ghost K: seq<seq<char>>)
    returns (next: int)
    requires Sorted(order) && FixedPoint(order, K) && Layout(l, K)
    requires 0 <= nodeId < |order|
    ensures next == Step(l, order, K, nodeId, c)
  {
    ghost var s := Scanned(l, K, nodeId);
    var childStart := 0;
    if nodeId != 0 {
      var p := Select0(l.bits, nodeId - 1);
      childStart := p + 1;
      ScanStart(l, order, K, nodeId, p);
    }
    ScanLayoutHolds(l, order, K, s);
    next := ScanChildren(l, childStart, c, K[s], EdgeId(K, s, 0));
    StepValue(l, order, K, nodeId, c);
  }

  /**
   * The child edges of a node as the scan meets them: the set bits from
   * start on, one per label of ks, then a clear bit (or the end); the j-th
   * of them ranks to node base + j, whose label byte is that of ks[j].
   */
  ghost predicate ScanLayout(l: Louds, start: int, ks: seq<char>, base: int)
  {
    && start >= 0
    && !(start + |ks| < l.bitLen && Get(l.bits, start + |ks|))
    && forall j :: 0 <= j < |ks| ==> EdgeAt(l, start, ks, base, j)
  }

  /** The j-th child edge: a set bit at start + j that ranks to base + j, labelled by the byte of ks[j]. */
  ghost predicate EdgeAt(l: Louds, start: int, ks: seq<char>, base: int, j: int)
    requires 0 <= j < |ks|
  {
    start + j < l.bitLen && Get(l.bits, start + j) && 1 <= base + j <= |l.labels|
    && start + j >= -1 && Rank1(l.bits, start + j) == base + j && l.labels[base + j - 1] == ToByte(ks[j])
  }

  /** The for loop over the child bits: the first child whose label byte equals c, or -1. */
  method ScanChildren(l: Louds, start: int, c: char, ghost ks: seq<char>, ghost base: int) returns (next: int)
    requires ScanLayout(l, start, ks, base)
    ensures next == if FirstMatch(ks, c) == |ks| then -1 else base + FirstMatch(ks, c)
  {
    next := -1;
    var bitIdx := start;
    ghost var j := 0;
    while bitIdx < l.bitLen && Get(l.bits, bitIdx)
      invariant j <= FirstMatch(ks, c) && bitIdx == start + j
      invariant next == -1
      decreases l.bitLen - bitIdx
    {
      ScanAt(l, start, ks, base, j);
      var childNodeId := Rank1(l.bits, bitIdx);
      if l.labels[childNodeId - 1] == c as int {
        next := childNodeId;
        return;
      }
      FirstMatchNext(ks, c, j);
      bitIdx := bitIdx + 1;
      j := j + 1;
    }
    if j < |ks| {
      ScanAt(l, start, ks, base, j);
    }
  }

  lemma ScanAt(l: Louds, start: int, ks: seq<char>, base: int, j: nat)
    requires ScanLayout(l, start, ks, base) && j <= |ks|
    ensures j < |ks| <==> start + j < l.bitLen && Get(l.bits, start + j)
    ensures j < |ks| ==> 1 <= base + j <= |l.labels| && Rank1(l.bits, start + j) == base + j
    ensures j < |ks| ==> l.labels[base + j - 1] == ToByte(ks[j])
  {
    if j < |ks| {
      assert EdgeAt(l, start, ks, base, j);
    }
  }

  /** Node m's child scan meets the layout ScanLayout describes. */
  lemma ScanLayoutHolds(l: Louds, order: seq<string>, K: seq<seq<char>>, m: nat)
    requires Sorted(order) && FixedPoint(order, K) && Layout(l, K)
    requires m < |order|
    ensures ScanLayout(l, EdgePos(K, m, 0), K[m], EdgeId(K, m, 0))
  {
    forall j | 0 <= j < |K[m]|
      ensures EdgeAt(l, EdgePos(K, m, 0), K[m], EdgeId(K, m, 0), j)
    {
      ScanBit(l, order, K, m, j);
      assert EdgePos(K, m, j) == EdgePos(K, m, 0) + j && EdgeId(K, m, j) == EdgeId(K, m, 0) + j;
    }
    ScanBit(l, order, K, m, |K[m]|);
  }

  /** The bits the child scan of node m meets: its edges, then its terminator. */
  lemma ScanBit(l: Louds, order: seq<string>, K: seq<seq<char>>, m: nat, j: nat)
    requires Sorted(order) && FixedPoint(order, K) && Layout(l, K)
    requires m < |order| && j <= |K[m]|
    ensures j < |K[m]| <==> EdgePos(K, m, j) < l.bitLen && Get(l.bits, EdgePos(K, m, j))
    ensures j < |K[m]| ==> 1 <= EdgeId(K, m, j) <= |l.labels| && Rank1(l.bits, EdgePos(K, m, j)) == EdgeId(K, m, j)
    ensures j < |K[m]| ==> l.labels[EdgeId(K, m, j) - 1] == ToByte(K[m][j])
  {
    if j < |K[m]| {
      ChildEdge(l, order, K, m, j);
    } else {
      ChildrenEnd(l, order, K, m);
    }
  }

  /** The value of Step, spelled out by the scan position the match is found at. */
  lemma StepValue(l: Louds, order: seq<string>, K: seq<seq<char>>, nodeId: nat, c: char)
    requires Sorted(order) && FixedPoint(order, K) && Layout(l, K)
    requires nodeId < |order|
    ensures var s := Scanned(l, K, nodeId);
            Step(l, order, K, nodeId, c) ==
            if FirstMatch(K[s], c) == |K[s]| then -1 else EdgeId(K, s, FirstMatch(K[s], c))
  {
  }

  /** Where the child scan of node nodeId >= 1 starts, given what select0(nodeId - 1) returned. */
  lemma ScanStart(l: Louds, order: seq<string>, K: seq<seq<char>>, nodeId: nat, p: int)
    requires Sorted(order) && FixedPoint(order, K) && Layout(l, K)
    requires 1 <= nodeId < |order|
    requires p == -1 <==> Zeros(l.bits, Length(l.bits)) <= nodeId - 1
    requires p != -1 ==> 0 <= p < Length(l.bits) && !l.bits[p] && Rank0(l.bits, p) == nodeId
    ensures p + 1 == EdgePos(K, Scanned(l, K, nodeId), 0)
  {
    var t := EdgePos(K, nodeId, 0) - 1;
    Terminator(l, order, K, nodeId);
    if t < Length(l.bits) {
      ZerosMonotone(l.bits, t + 1, Length(l.bits));
      ClearPositionOfRank(l.bits, p, t);
    } else {
      OnesPlusZeros(l.bits, t + 1);
      ZerosMonotone(l.bits, Length(l.bits), t);
      assert Get(l.bits, t) == false;
      assert p == -1;
    }
  }

  /** The walk of buildNodeIdPointers for one word: -1 where Java throws. */
  method WalkWord(l: Louds, w: string, ghost order: seq<string>, ghost K: seq<seq<char>>) returns (nodeId: int)
    requires Sorted(order) && FixedPoint(order, K) && Layout(l, K)
    ensures nodeId == Navigate(l, order, K, w)
  {
    nodeId := 0;
    for i := 0 to |w|
      invariant nodeId == Navigate(l, order, K, w[..i]) && nodeId != -1
    {
      assert w[..i + 1][..i] == w[..i];
      nodeId := ChildByLabel(l, nodeId, w[i], order, K);
      if nodeId == -1 {
        NavigateFails(l, order, K, w, i + 1);
        return;
      }
    }
    assert w[..|w|] == w;
  }

  /** Once the walk of a prefix fails, the walk of the whole word fails. */
  lemma {:induction false} NavigateFails(l: Louds, order: seq<string>, K: seq<seq<char>>, w: string, i: nat)
    requires Sorted(order) && FixedPoint(order, K) && Layout(l, K)
    requires i <= |w| && Navigate(l, order, K, w[..i]) == -1
    ensures Navigate(l, order, K, w) == -1
    decreases |w| - i
  {
    if i < |w| {
      assert w[..i + 1][..i] == w[..i];
      NavigateFails(l, order, K, w, i + 1);
    } else {
      assert w[..i] == w;
    }
  }

  /**
   * buildNodeIdPointers: the node id of every word, or, when some step of
   * some word finds no child, the first such word (where Java throws
   * "dictionary inconsistent").
   */
  method BuildNodeIdPointers(vocab: seq<string>, l: Louds, ghost order: seq<string>, ghost K: seq<seq<char>>)
    returns (r: Result<seq<int>, string>)
    requires Sorted(order) && FixedPoint(order, K) && Layout(l, K)
    ensures r.Success? <==> forall i :: 0 <= i < |vocab| ==> Navigate(l, order, K, vocab[i]) != -1
    ensures r.Success? ==> |r.value| == |vocab| &&
                           forall i :: 0 <= i < |vocab| ==> r.value[i] == Navigate(l, order, K, vocab[i])
    ensures r.Failure? ==> exists i :: 0 <= i < |vocab| && r.error == vocab[i] && Navigate(l, order, K, vocab[i]) == -1 &&
                                       forall j :: 0 <= j < i ==> Navigate(l, order, K, vocab[j]) != -1
  {
    var ptr := new int[|vocab|];
    for wi := 0 to |vocab|
      invariant forall i :: 0 <= i < wi ==> ptr[i] == Navigate(l, order, K, vocab[i]) != -1
    {
      var nodeId := WalkWord(l, vocab[wi], order, K);
      if nodeId == -1 {
        return Failure(vocab[wi]);
      }
      ptr[wi] := nodeId;
    }
    return Success(ptr[..]);
  }

  /**
   * In the encoding of a prefix-closed W, walking a word of W from the root
   * reaches the node listed for it exactly when the word is ASCII: a
   * character of 128 or more never equals a label byte.
   */
  lemma {:induction false} NavigateWord(l: Louds, W: set<string>, order: seq<string>, w: string)
    requires Encodes(l, W, order) && Prefixes(w) <= W
    ensures var K := KidLists(W, order);
            Navigate(l, order, K, w) != -1 <==> IsAscii(w)
    ensures var K := KidLists(W, order);
            IsAscii(w) ==> order[Navigate(l, order, K, w)] == w
    decreases |w|
  {
    if |w| == 0 {
      assert order[0] == [];
    } else {
      var v := w[..|w| - 1];
      PrefixesParent(w);
      NavigateWord(l, W, order, v);
      NavigateLast(l, W, order, w);
    }
  }

  lemma PrefixesParent(w: string)
    requires |w| > 0
    ensures Prefixes(w[..|w| - 1]) <= Prefixes(w) && w in Prefixes(w)
    ensures IsAscii(w) <==> IsAscii(w[..|w| - 1]) && w[|w| - 1] as int < 128
  {
    PrefixesStep(w, |w| - 1);
    assert w[..|w|] == w;
  }

  /** The last step of walking w, once the walk of its parent string is known. */
  lemma NavigateLast(l: Louds, W: set<string>, order: seq<string>, w: string)
    requires Encodes(l, W, order) && |w| > 0 && w in W
    requires var K := KidLists(W, order);
             var p := Navigate(l, order, K, w[..|w| - 1]);
             (p != -1 <==> IsAscii(w[..|w| - 1])) && (p != -1 ==> order[p] == w[..|w| - 1])
    requires IsAscii(w) <==> IsAscii(w[..|w| - 1]) && w[|w| - 1] as int < 128
    ensures var K := KidLists(W, order);
            Navigate(l, order, K, w) != -1 <==> IsAscii(w)
    ensures var K := KidLists(W, order);
            IsAscii(w) ==> order[Navigate(l, order, K, w)] == w
  {
    var K := KidLists(W, order);
    var v := w[..|w| - 1];
    var c := w[|w| - 1];
    var p := Navigate(l, order, K, v);
    if p != -1 {
      if c as int < 128 {
        var j := KidIndex(W, w);
        StepFindsChild(l, order, K, p, j);
      } else {
        StepNonAscii(l, order, K, p, c);
      }
    }
  }

  /**
   * toTerm: climb from the node to the root, collecting the label of each
   * edge as a char, then reverse. Node ids at or below 0 give the empty
   * string; labels were stored as bytes, so the word comes back as its
   * truncation.
   */
  method ToTerm(l: Louds, nodeId: int, ghost order: seq<string>, ghost K: seq<seq<char>>) returns (term: string)
    requires Sorted(order) && FixedPoint(order, K) && Layout(l, K)
    requires nodeId < |order|
    ensures term == if nodeId <= 0 then [] else Truncated(order[nodeId])
  {
    var sb: seq<char> := [];
    var cur := nodeId;
    ghost var target := if nodeId <= 0 then [] else order[nodeId];
    while cur > 0
      invariant cur < |order|
      invariant cur < 0 ==> cur == nodeId
      invariant nodeId <= 0 ==> cur == nodeId && sb == []
      invariant 0 <= cur ==> Truncated(target) == Truncated(order[cur]) + Reverse(sb)
      decreases cur
    {
      ParentExists(l, order, K, cur);
      var ch := ToChar(l.labels[cur - 1]);
      var p := Select1(l.bits, cur - 1);
      ClimbStep(l, order, K, cur, p, sb, target);
      sb := sb + [ch];
      cur := Rank0(l.bits, p);
    }
    if nodeId > 0 {
      assert order[0] == [];
    }
    term := Reverse(sb);
  }

  /** A node id >= 1 has a label and an edge among the set bits select1 scans. */
  lemma ParentExists(l: Louds, order: seq<string>, K: seq<seq<char>>, id: nat)
    requires Sorted(order) && FixedPoint(order, K) && Layout(l, K)
    requires 1 <= id < |order|
    ensures id - 1 < |l.labels| && Ones(l.bits, Length(l.bits)) > id - 1
  {
    var m, j := ParentEdge(l, order, K, id);
    ChildEdge(l, order, K, m, j);
  }

  /**
   * One climbing step of toTerm from node id >= 1: select1(id - 1) finds the
   * edge into id, its rank0 is the parent, a smaller id, and the label
   * stored at id - 1 is the last character of the word, truncated.
   */
  lemma ClimbStep(l: Louds, order: seq<string>, K: seq<seq<char>>, id: nat, p: int, sb: seq<char>, target: string)
    requires Sorted(order) && FixedPoint(order, K) && Layout(l, K)
    requires 1 <= id < |order| && id - 1 < |l.labels|
    requires 0 <= p < Length(l.bits) && l.bits[p] && Rank1(l.bits, p) == id
    requires Truncated(target) == Truncated(order[id]) + Reverse(sb)
    ensures Rank0(l.bits, p) < id
    ensures Truncated(target) == Truncated(order[Rank0(l.bits, p)]) + Reverse(sb + [ToChar(l.labels[id - 1])])
  {
    var m, c := ParentOf(l, order, K, id, p);
    TruncatedStep(target, order[m], c, sb);
  }

  /** The edge select1 finds for node id >= 1 leads from the parent rank0 gives, by the label stored at id - 1. */
  lemma ParentOf(l: Louds, order: seq<string>, K: seq<seq<char>>, id: nat, p: int) returns (m: nat, c: char)
    requires Sorted(order) && FixedPoint(order, K) && Layout(l, K)
    requires 1 <= id < |order| && id - 1 < |l.labels|
    requires 0 <= p < Length(l.bits) && l.bits[p] && Rank1(l.bits, p) == id
    ensures m == Rank0(l.bits, p) < id
    ensures order[id] == order[m] + [c] && l.labels[id - 1] == ToByte(c)
  {
    var j;
    m, j := ParentEdge(l, order, K, id);
    ChildEdge(l, order, K, m, j);
    SetPositionOfRank(l.bits, p, EdgePos(K, m, j));
    c := K[m][j];
  }

  lemma TruncatedStep(target: string, x: string, c: char, sb: seq<char>)
    requires Truncated(target) == Truncated(x + [c]) + Reverse(sb)
    ensures Truncated(target) == Truncated(x) + Reverse(sb + [ToChar(ToByte(c))])
  {
    assert (x + [c])[..|x|] == x;
    ReverseAppend(sb, ToChar(ToByte(c)));
  }

  /** Every word of the vocabulary is found in its own encoding exactly when it is ASCII. */
  lemma VocabularyWords(l: Louds, vocab: seq<string>, order: seq<string>, i: nat)
    requires Encodes(l, PrefixClosure(vocab), order) && i < |vocab|
    ensures var K := KidLists(PrefixClosure(vocab), order);
            Navigate(l, order, K, vocab[i]) != -1 <==> IsAscii(vocab[i])
    ensures var K := KidLists(PrefixClosure(vocab), order);
            IsAscii(vocab[i]) ==> order[Navigate(l, order, K, vocab[i])] == vocab[i]
  {
    PrefixClosureContains(vocab, i);
    NavigateWord(l, PrefixClosure(vocab), order, vocab[i]);
  }

  /**
   * What main demonstrates: build the LOUDS trie of the vocabulary, resolve
   * every word to its node id, then turn the node id of word idx back into a
   * string. The pointers exist exactly when every word is ASCII (otherwise
   * buildNodeIdPointers throws on a non-ASCII word), and then the recovered
   * string is the word itself. The random sample index is a parameter.
   */
  method RecoverWord(vocab: seq<string>, idx: int) returns (r: Result<string, string>)
    requires 0 <= idx < |vocab|
    ensures r.Success? <==> forall i :: 0 <= i < |vocab| ==> IsAscii(vocab[i])
    ensures r.Success? ==> r.value == vocab[idx]
    ensures r.Failure? ==> exists i :: 0 <= i < |vocab| && r.error == vocab[i] && !IsAscii(vocab[i]) &&
                                       forall j :: 0 <= j < i ==> IsAscii(vocab[j])
  {
    var l, order := BuildLouds(vocab);
    ghost var W := PrefixClosure(vocab);
    ghost var K := KidLists(W, order);
    forall i | 0 <= i < |vocab|
      ensures Navigate(l, order, K, vocab[i]) != -1 <==> IsAscii(vocab[i])
      ensures IsAscii(vocab[i]) ==> order[Navigate(l, order, K, vocab[i])] == vocab[i]
    {
      VocabularyWords(l, vocab, order, i);
    }
    var ptrs := BuildNodeIdPointers(vocab, l, order, K);
    if ptrs.Failure? {
      return Failure(ptrs.error);
    }
    var term := ToTerm(l, ptrs.value[idx], order, K);
    assert order[0] == [];
    return Success(term);
  }

  /** The bits and labels depend only on which words occur, not on their order or repetitions. */
  lemma SameWordsSameLouds(v1: seq<string>, v2: seq<string>, l1: Louds, l2: Louds, o1: seq<string>, o2: seq<string>)
    requires Encodes(l1, PrefixClosure(v1), o1) && Encodes(l2, PrefixClosure(v2), o2)
    requires forall w :: w in v1 <==> w in v2
    ensures l1 == l2
  {
    PrefixClosureOfSameWords(v1, v2);
    EncodesUnique(l1, l2, PrefixClosure(v1), o1, o2);
  }
}
