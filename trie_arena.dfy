/**
 * Pointer tries as arenas: node n's child map sends a character to the id
 * of the child node, node 0 is the root, and each node carries, as ghost
 * state, the string spelled from the root to it.
 */
module TrieArena {

  /** Every prefix of w, the empty one and w itself included. */
  function Prefixes(w: string): set<string>
  {
    set k | 0 <= k <= |w| :: w[..k]
  }

  lemma PrefixesStep(w: string, k: nat)
    requires k < |w|
    ensures w[..k + 1] == w[..k] + [w[k]]
    ensures Prefixes(w[..k + 1]) == Prefixes(w[..k]) + {w[..k + 1]}
  {
    var p, q := w[..k + 1], w[..k];
    forall x | x in Prefixes(p)
      ensures x in Prefixes(q) + {p}
    {
      var i :| 0 <= i <= |p| && x == p[..i];
      if i <= k {
        assert x == q[..i];
      } else {
        assert x == p;
      }
    }
    forall x | x in Prefixes(q) + {p}
      ensures x in Prefixes(p)
    {
      if x in Prefixes(q) {
        var i :| 0 <= i <= |q| && x == q[..i];
        assert x == p[..i];
      } else {
        assert x == p[..|p|];
      }
    }
  }

  /** Every child link leads to a node whose string is the parent's extended by the key. */
  ghost predicate Linked(ch: seq<map<char, int>>, ps: seq<string>)
  {
    |ch| == |ps| &&
    forall n, c :: 0 <= n < |ch| && c in ch[n] ==> 0 <= ch[n][c] < |ps| && ps[ch[n][c]] == ps[n] + [c]
  }

  /** No two nodes spell the same string. */
  ghost predicate Distinct(ps: seq<string>)
  {
    forall a, b :: 0 <= a < b < |ps| ==> ps[a] != ps[b]
  }

  /** Every non-root node's parent string is a node. */
  ghost predicate Closed(ps: seq<string>)
  {
    forall m :: 0 < m < |ps| ==> |ps[m]| > 0 && ps[m][..|ps[m]| - 1] in ps
  }

  /** Every node links to each node whose parent string is its own. */
  ghost predicate Complete(ch: seq<map<char, int>>, ps: seq<string>)
  {
    |ch| == |ps| &&
    forall n, m :: 0 <= n < |ps| && 0 < m < |ps| && |ps[m]| > 0 && ps[m][..|ps[m]| - 1] == ps[n] ==>
      ps[m][|ps[m]| - 1] in ch[n]
  }

  /** A well-formed arena: node 0 is the root and the links spell the node strings. */
  ghost predicate Arena(ch: seq<map<char, int>>, ps: seq<string>)
  {
    |ch| == |ps| >= 1 && ps[0] == [] && Linked(ch, ps) && Distinct(ps) && Closed(ps) && Complete(ch, ps)
  }

  ghost function NodeStrings(ps: seq<string>): set<string>
  {
    set n | 0 <= n < |ps| :: ps[n]
  }

  /** The string a new child c of node n would spell is not yet a node. */
  lemma NewChildIsNew(ch: seq<map<char, int>>, ps: seq<string>, n: nat, c: char)
    requires Arena(ch, ps) && n < |ps| && c !in ch[n]
    ensures ps[n] + [c] !in ps
  {
    var x := ps[n] + [c];
    assert x[..|x| - 1] == ps[n] && x[|x| - 1] == c;
    forall m | 0 <= m < |ps|
      ensures ps[m] != x
    {
      if |ps[m]| == |x| && ps[m][..|ps[m]| - 1] == ps[n] {
        assert m != 0;
        assert ps[m][|ps[m]| - 1] in ch[n];
      }
    }
  }

  lemma LinkedGrow(ch: seq<map<char, int>>, ps: seq<string>, n: nat, c: char)
    requires Linked(ch, ps) && n < |ps|
    ensures Linked(ch[n := ch[n][c := |ch|]] + [map[]], ps + [ps[n] + [c]])
  {
    var ch', ps' := ch[n := ch[n][c := |ch|]] + [map[]], ps + [ps[n] + [c]];
    forall n', c' | 0 <= n' < |ch'| && c' in ch'[n']
      ensures 0 <= ch'[n'][c'] < |ps'| && ps'[ch'[n'][c']] == ps'[n'] + [c']
    {
      if n' < |ch| && !(n' == n && c' == c) {
        assert c' in ch[n'] && ch'[n'][c'] == ch[n'][c'];
      }
    }
  }

  lemma DistinctGrow(ps: seq<string>, x: string)
    requires Distinct(ps) && x !in ps
    ensures Distinct(ps + [x])
  {
  }

  lemma ClosedGrow(ps: seq<string>, n: nat, c: char)
    requires Closed(ps) && n < |ps|
    ensures Closed(ps + [ps[n] + [c]])
  {
    var ps' := ps + [ps[n] + [c]];
    forall m | 0 < m < |ps'|
      ensures |ps'[m]| > 0 && ps'[m][..|ps'[m]| - 1] in ps'
    {
      if m < |ps| {
        assert ps'[m] == ps[m];
      } else {
        assert ps'[m][..|ps'[m]| - 1] == ps[n];
      }
    }
  }

  lemma CompleteGrow(ch: seq<map<char, int>>, ps: seq<string>, n: nat, c: char)
    requires Complete(ch, ps) && Distinct(ps) && Closed(ps) && n < |ps| && ps[n] + [c] !in ps
    ensures Complete(ch[n := ch[n][c := |ch|]] + [map[]], ps + [ps[n] + [c]])
  {
    var ch', ps' := ch[n := ch[n][c := |ch|]] + [map[]], ps + [ps[n] + [c]];
    var id := |ps|;
    forall n', m | 0 <= n' < |ps'| && 0 < m < |ps'| && |ps'[m]| > 0 && ps'[m][..|ps'[m]| - 1] == ps'[n']
      ensures ps'[m][|ps'[m]| - 1] in ch'[n']
    {
      if m == id {
        assert ps'[n'] == ps[n];
      } else if n' == id {
        assert false;
      } else {
        assert ps'[m] == ps[m] && ps'[n'] == ps[n'];
        assert ps[m][|ps[m]| - 1] in ch[n'];
      }
    }
  }

  lemma NodeStringsGrow(ps: seq<string>, x: string)
    ensures NodeStrings(ps + [x]) == NodeStrings(ps) + {x}
  {
    var ps' := ps + [x];
    forall y | y in NodeStrings(ps')
      ensures y in NodeStrings(ps) + {x}
    {
      var m :| 0 <= m < |ps'| && ps'[m] == y;
      if m < |ps| {
        assert ps[m] == y;
      }
    }
    forall y | y in NodeStrings(ps) + {x}
      ensures y in NodeStrings(ps')
    {
      if y != x {
        var m :| 0 <= m < |ps| && ps[m] == y;
        assert ps'[m] == y;
      } else {
        assert ps'[|ps|] == x;
      }
    }
  }

  /** Following the link for key c of node n. */
  lemma ChildLink(ch: seq<map<char, int>>, ps: seq<string>, n: nat, c: char)
    requires Linked(ch, ps) && n < |ch| && c in ch[n]
    ensures 0 <= ch[n][c] < |ps| && ps[ch[n][c]] == ps[n] + [c]
  {
  }

  /** Node strings are closed under taking prefixes. */
  lemma {:induction false} ClosedPrefix(ps: seq<string>, x: string, k: nat)
    requires Closed(ps) && |ps| >= 1 && ps[0] == [] && x in ps && k <= |x|
    ensures x[..k] in ps
    decreases |x| - k
  {
    if k < |x| {
      var m :| 0 <= m < |ps| && ps[m] == x;
      assert m > 0;
      var y := x[..|x| - 1];
      ClosedPrefix(ps, y, k);
      assert y[..k] == x[..k];
    } else {
      assert x[..k] == x;
    }
  }

  /** No node spells a child string that its parent has no link for. */
  lemma MissingChild(ch: seq<map<char, int>>, ps: seq<string>, n: nat, c: char, x: string)
    requires Arena(ch, ps) && n < |ps| && c !in ch[n] && |x| > |ps[n]| && x[..|ps[n]| + 1] == ps[n] + [c]
    ensures x !in ps
  {
    NewChildIsNew(ch, ps, n, c);
    if x in ps {
      ClosedPrefix(ps, x, |ps[n]| + 1);
    }
  }
}
