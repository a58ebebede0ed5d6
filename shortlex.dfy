/**
 * Shortlex order on strings: shorter strings first, strings of equal length
 * in lexicographic order of their characters. Breadth-first traversal of a
 * trie whose children are visited in increasing character order lists the
 * nodes' strings in exactly this order.
 */
module Shortlex {

  /** Strict lexicographic order on two strings of the same length. */
  predicate LexLess(a: string, b: string)
    requires |a| == |b|
    decreases |a|
  {
    |a| > 0 && (a[0] < b[0] || (a[0] == b[0] && LexLess(a[1..], b[1..])))
  }

  predicate Less(a: string, b: string)
  {
    |a| < |b| || (|a| == |b| && LexLess(a, b))
  }

  /** Strictly increasing in shortlex order (hence without repetitions). */
  predicate Sorted(s: seq<string>)
  {
    forall i, j {:trigger Less(s[i], s[j])} :: 0 <= i < j < |s| ==> Less(s[i], s[j])
  }

  lemma {:induction false} LexIrreflexive(a: string)
    ensures !LexLess(a, a)
    decreases |a|
  {
    if |a| > 0 {
      LexIrreflexive(a[1..]);
    }
  }

  lemma {:induction false} LexTransitive(a: string, b: string, c: string)
    requires |a| == |b| == |c| && LexLess(a, b) && LexLess(b, c)
    ensures LexLess(a, c)
    decreases |a|
  {
    if a[0] == b[0] && b[0] == c[0] {
      LexTransitive(a[1..], b[1..], c[1..]);
    }
  }

  lemma {:induction false} LexTotal(a: string, b: string)
    requires |a| == |b| && a != b
    ensures LexLess(a, b) || LexLess(b, a)
    decreases |a|
  {
    assert |a| > 0;
    if a[0] == b[0] {
      assert a == [a[0]] + a[1..] && b == [b[0]] + b[1..];
      LexTotal(a[1..], b[1..]);
    }
  }

  lemma LessIrreflexive(a: string)
    ensures !Less(a, a)
  {
    LexIrreflexive(a);
  }

  lemma LessTransitive(a: string, b: string, c: string)
    requires Less(a, b) && Less(b, c)
    ensures Less(a, c)
  {
    if |a| == |b| == |c| {
      LexTransitive(a, b, c);
    }
  }

  lemma LessTotal(a: string, b: string)
    requires a != b
    ensures Less(a, b) || Less(b, a)
  {
    if |a| == |b| {
      LexTotal(a, b);
    }
  }

  /** Appending one character to each side keeps the order of two strings of equal length. */
  lemma {:induction false} LexExtend(x: string, y: string, a: char, b: char)
    requires |x| == |y| && LexLess(x, y)
    ensures LexLess(x + [a], y + [b])
    decreases |x|
  {
    assert (x + [a])[1..] == x[1..] + [a];
    assert (y + [b])[1..] == y[1..] + [b];
    if x[0] == y[0] {
      LexExtend(x[1..], y[1..], a, b);
    }
  }

  /** Children of an earlier node come before children of a later node. */
  lemma ExtendLess(x: string, y: string, a: char, b: char)
    requires Less(x, y)
    ensures Less(x + [a], y + [b])
  {
    if |x| == |y| {
      LexExtend(x, y, a, b);
    }
  }

  /** Siblings are ordered by their last character. */
  lemma {:induction false} SiblingLess(x: string, a: char, b: char)
    requires a < b
    ensures Less(x + [a], x + [b])
    decreases |x|
  {
    if |x| > 0 {
      assert (x + [a])[1..] == x[1..] + [a];
      assert (x + [b])[1..] == x[1..] + [b];
      SiblingLess(x[1..], a, b);
    }
  }

  /** Along a sorted sequence the lengths never decrease. */
  lemma SortedLengths(s: seq<string>)
    requires Sorted(s)
    ensures forall i, j :: 0 <= i <= j < |s| ==> |s[i]| <= |s[j]|
  {
    forall i, j | 0 <= i < j < |s|
      ensures |s[i]| <= |s[j]|
    {
      assert Less(s[i], s[j]);
    }
  }

  lemma SortedAppend(s: seq<string>, x: string)
    requires Sorted(s)
    requires |s| == 0 || Less(s[|s| - 1], x)
    ensures Sorted(s + [x])
  {
    forall i, j | 0 <= i < j < |s| + 1
      ensures Less((s + [x])[i], (s + [x])[j])
    {
      if j == |s| && i < |s| - 1 {
        LessTransitive(s[i], s[|s| - 1], x);
      }
    }
  }

  /** A sorted sequence lists each of its elements once. */
  lemma {:induction false} SortedCardinality(s: seq<string>)
    requires Sorted(s)
    ensures |set x | x in s| == |s|
    decreases |s|
  {
    if |s| > 0 {
      var t := s[1..];
      SortedCardinality(t);
      assert s[0] !in t by {
        if s[0] in t {
          var j :| 0 <= j < |t| && t[j] == s[0];
          assert s[j + 1] == s[0];
          LessIrreflexive(s[0]);
        }
      }
      assert (set x | x in s) == (set x | x in t) + {s[0]};
    }
  }

  /** Two sorted sequences with the same elements are equal: a sorted enumeration is unique. */
  lemma {:induction false} SortedUnique(s: seq<string>, t: seq<string>)
    requires Sorted(s) && Sorted(t)
    requires forall x :: x in s <==> x in t
    ensures s == t
    decreases |s|
  {
    SortedCardinality(s);
    SortedCardinality(t);
    assert (set x | x in s) == (set x | x in t);
    if |s| > 0 {
      assert s[0] in t && |t| > 0;
      assert t[0] in s;
      if s[0] != t[0] {
        var i :| 0 <= i < |t| && t[i] == s[0];
        var j :| 0 <= j < |s| && s[j] == t[0];
        assert Less(t[0], s[0]);
        assert Less(s[0], t[0]);
        LessTransitive(s[0], t[0], s[0]);
        LessIrreflexive(s[0]);
      }
      forall x
        ensures x in s[1..] <==> x in t[1..]
      {
        if x in s[1..] {
          var i :| 1 <= i < |s| && s[i] == x;
          assert Less(s[0], x);
          if x == t[0] {
            LessIrreflexive(x);
          }
          assert x in t;
        }
        if x in t[1..] {
          var i :| 1 <= i < |t| && t[i] == x;
          assert Less(t[0], x);
          if x == s[0] {
            LessIrreflexive(x);
          }
          assert x in s;
        }
      }
      SortedUnique(s[1..], t[1..]);
      assert s == [s[0]] + s[1..] && t == [t[0]] + t[1..];
    }
  }
}
