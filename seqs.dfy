/** Facts about sequences used by several parts of the model: distinctness and counting. */
module Seqs {

  predicate Distinct<T(==)>(s: seq<T>) {
    forall i, j | 0 <= i < j < |s| :: s[i] != s[j]
  }

  /** A sequence is its prefix followed by the rest. */
  lemma TakeDrop<T>(s: seq<T>, n: nat)
    requires n <= |s|
    ensures s[..n] + s[n..] == s
  {
  }

  /** An element behind the head of `[h] + t` is an element of `t`. */
  lemma ConsIndex<T>(h: T, t: seq<T>, i: nat)
    requires 1 <= i <= |t|
    ensures ([h] + t)[i] == t[i - 1]
  {
  }

  /** Concatenation is associative. */
  lemma AppendAssoc<T>(a: seq<T>, b: seq<T>, c: seq<T>)
    ensures a + (b + c) == a + b + c
  {
  }

  /** Two distinct sequences with no element in common join into a distinct one. */
  lemma DistinctAppend<T>(a: seq<T>, b: seq<T>)
    requires Distinct(a) && Distinct(b)
    requires forall i, j | 0 <= i < |a| && 0 <= j < |b| :: a[i] != b[j]
    ensures Distinct(a + b)
  {
    var c := a + b;
    forall i, j | 0 <= i < j < |c|
      ensures c[i] != c[j]
    {
      if j < |a| {
        assert c[i] == a[i] && c[j] == a[j];
      } else if i >= |a| {
        assert c[i] == b[i - |a|] && c[j] == b[j - |a|];
      } else {
        assert c[i] == a[i] && c[j] == b[j - |a|];
      }
    }
  }

  /** What the tail holds, the sequence holds. */
  lemma InTail<T>(s: seq<T>, x: T)
    requires |s| > 0 && x in s[1..]
    ensures x in s
  {
    var j :| 0 <= j < |s| - 1 && s[1..][j] == x;
    assert s[j + 1] == x;
  }

  function Elements<T>(s: seq<T>): set<T> {
    set x | x in s
  }

  lemma {:induction false} ElementsBound<T>(s: seq<T>)
    ensures |Elements(s)| <= |s|
  {
    if |s| > 0 {
      ElementsBound(s[1..]);
      assert Elements(s) == Elements(s[1..]) + {s[0]};
    }
  }

  lemma {:induction false} DistinctElements<T>(s: seq<T>)
    requires Distinct(s)
    ensures |Elements(s)| == |s|
  {
    if |s| > 0 {
      DistinctElements(s[1..]);
      assert Elements(s) == Elements(s[1..]) + {s[0]};
      assert s[0] !in Elements(s[1..]);
    }
  }

  lemma SubsetCard<T>(a: set<T>, b: set<T>)
    requires a <= b
    ensures |a| <= |b|
  {
    assert b == a + (b - a);
  }

  /** Pigeonhole: a sequence shorter than a distinct one cannot contain all of its elements. */
  lemma Cover<T>(points: seq<T>, s: seq<T>)
    requires Distinct(points)
    ensures (forall j | 0 <= j < |points| :: points[j] in s) ==> |points| <= |s|
  {
    if forall j | 0 <= j < |points| :: points[j] in s {
      assert Elements(points) <= Elements(s);
      SubsetCard(Elements(points), Elements(s));
      DistinctElements(points);
      ElementsBound(s);
    }
  }
}
