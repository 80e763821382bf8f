/** Sequences with one element taken out, and how often an element occurs. */
module Sequences {

  function RemoveAt<T>(s: seq<T>, k: nat): (r: seq<T>)
    requires k < |s|
    ensures |r| == |s| - 1
  {
    s[..k] + s[k + 1..]
  }

  lemma Associative<T>(a: seq<T>, b: seq<T>, c: seq<T>)
    ensures (a + b) + c == a + (b + c)
  {}

  ghost function Occurrences<T>(s: seq<T>, x: T): nat {
    if s == [] then 0 else Occurrences(s[..|s| - 1], x) + if s[|s| - 1] == x then 1 else 0
  }

  /** The same elements, each as often. */
  ghost predicate Permuted<T(!new)>(s: seq<T>, t: seq<T>) {
    |s| == |t| && forall x :: Occurrences(s, x) == Occurrences(t, x)
  }

  lemma {:induction false} OccurrencesIsMultiplicity<T>(s: seq<T>, x: T)
    ensures Occurrences(s, x) == multiset(s)[x]
  {
    if s != [] {
      OccurrencesIsMultiplicity(s[..|s| - 1], x);
      assert s == s[..|s| - 1] + [s[|s| - 1]];
    }
  }

  lemma OccurrencesAppend<T>(s: seq<T>, y: T, x: T)
    ensures Occurrences(s + [y], x) == Occurrences(s, x) + if y == x then 1 else 0
  {
    assert (s + [y])[..|s|] == s;
  }

  lemma {:induction false} OccurrencesConcat<T>(s: seq<T>, t: seq<T>, x: T)
    ensures Occurrences(s + t, x) == Occurrences(s, x) + Occurrences(t, x)
  {
    if t == [] {
      assert s + t == s;
    } else {
      OccurrencesConcat(s, t[..|t| - 1], x);
      assert (s + t)[..|s + t| - 1] == s + t[..|t| - 1];
    }
  }

  lemma OccurrencesMiddle<T>(a: seq<T>, y: T, b: seq<T>, x: T)
    ensures Occurrences(a + [y] + b, x) == Occurrences(a + b, x) + if y == x then 1 else 0
  {
    OccurrencesConcat(a + [y], b, x);
    OccurrencesAppend(a, y, x);
    OccurrencesConcat(a, b, x);
  }

  lemma SplitAt<T>(s: seq<T>, k: nat)
    requires k <= |s|
    ensures s[..k] + s[k..] == s && (k < |s| ==> s[..k] + [s[k]] + s[k + 1..] == s)
  {}

  lemma OccurrencesInsert<T>(s: seq<T>, k: nat, y: T, x: T)
    requires k <= |s|
    ensures Occurrences(s[..k] + [y] + s[k..], x) == Occurrences(s, x) + if y == x then 1 else 0
  {
    SplitAt(s, k);
    OccurrencesMiddle(s[..k], y, s[k..], x);
  }

  lemma OccurrencesRemove<T>(s: seq<T>, k: nat, x: T)
    requires k < |s|
    ensures Occurrences(s, x) == Occurrences(RemoveAt(s, k), x) + if s[k] == x then 1 else 0
  {
    SplitAt(s, k);
    OccurrencesMiddle(s[..k], s[k], s[k + 1..], x);
  }

  lemma {:induction false} OccurrencesIn<T>(s: seq<T>, x: T)
    ensures Occurrences(s, x) > 0 <==> x in s
  {
    if s != [] {
      OccurrencesIn(s[..|s| - 1], x);
      assert x in s <==> x in s[..|s| - 1] || x == s[|s| - 1];
    }
  }

  lemma {:induction false} OccurrencesUpdate<T>(s: seq<T>, k: nat, y: T, x: T)
    requires k < |s|
    ensures Occurrences(s[k := y], x) + (if s[k] == x then 1 else 0) == Occurrences(s, x) + (if y == x then 1 else 0)
  {
    var m := |s| - 1;
    if k == m {
      assert s[k := y][..m] == s[..m];
    } else {
      OccurrencesUpdate(s[..m], k, y, x);
      assert s[k := y][..m] == s[..m][k := y];
    }
  }

  lemma {:induction false} SameLength<T(!new)>(s: seq<T>, t: seq<T>)
    requires forall x :: Occurrences(s, x) == Occurrences(t, x)
    ensures |s| == |t|
  {
    if s == [] {
      if t != [] { OccurrencesIn(t, t[0]); }
    } else {
      var m := |s| - 1;
      OccurrencesIn(s, s[m]);
      OccurrencesIn(t, s[m]);
      var k :| 0 <= k < |t| && t[k] == s[m];
      forall x ensures Occurrences(s[..m], x) == Occurrences(RemoveAt(t, k), x) {
        OccurrencesRemove(t, k, x);
      }
      SameLength(s[..m], RemoveAt(t, k));
    }
  }

  lemma PermutedIsMultiset<T(!new)>(s: seq<T>, t: seq<T>)
    ensures Permuted(s, t) <==> multiset(s) == multiset(t)
  {
    forall x ensures Occurrences(s, x) == multiset(s)[x] && Occurrences(t, x) == multiset(t)[x] {
      OccurrencesIsMultiplicity(s, x);
      OccurrencesIsMultiplicity(t, x);
    }
    if multiset(s) == multiset(t) { SameLength(s, t); }
  }
}
