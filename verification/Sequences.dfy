// Facts about sequences that several components share.
module Sequences {

  datatype Option<+T> = None | Some(value: T)

  ghost predicate Distinct<T>(s: seq<T>) {
    forall i, j :: 0 <= i < j < |s| ==> s[i] != s[j]
  }

  ghost function Elements<T>(s: seq<T>): set<T> {
    set x | x in s
  }

  ghost predicate Disjoint<T>(s: seq<T>, t: seq<T>) {
    forall x :: x in s ==> x !in t
  }

  lemma DistinctAppend<T>(s: seq<T>, t: seq<T>)
    requires Distinct(s) && Distinct(t) && Disjoint(s, t)
    ensures Distinct(s + t)
  {
    forall i, j | 0 <= i < j < |s + t|
      ensures (s + t)[i] != (s + t)[j]
    {
      if i < |s| <= j {
        assert s[i] in s && t[j - |s|] in t;
      }
    }
  }

  lemma DistinctTail<T>(s: seq<T>)
    requires Distinct(s) && s != []
    ensures Distinct(s[1..]) && s[0] !in s[1..]
  {
  }

  lemma Regroup<T>(a: seq<T>, b: seq<T>, c: seq<T>)
    ensures a + (b + c) == (a + b) + c
  {
  }

  lemma UnionRegroup<T>(a: set<T>, b: set<T>, c: set<T>)
    ensures a + (b + c) == (a + b) + c
  {
  }

  lemma {:induction false} Climbs(good: nat -> bool, n: nat, i: nat)
    requires good(0) && i <= n && forall k: nat :: k < n && good(k) ==> good(k + 1)
    ensures good(i)
  {
    if i > 0 {
      Climbs(good, n, i - 1);
    }
  }

  /** What every step along a sequence keeps holds everywhere on it. */
  lemma {:induction false} HoldsAlong<T>(s: seq<T>, good: T -> bool, i: nat)
    requires s != [] && good(s[0]) && i < |s|
    requires forall k :: 0 <= k < |s| - 1 && good(s[k]) ==> good(s[k + 1])
    ensures good(s[i])
  {
    if i > 0 {
      HoldsAlong(s, good, i - 1);
      assert good(s[i - 1]);
    }
  }
}
