/** Sequences as lists without repetition. */
module Sequences {

  ghost predicate Distinct<T>(s: seq<T>) {
    forall i, j :: 0 <= i < j < |s| ==> s[i] != s[j]
  }

  /** The first position of x, or the length. */
  function IndexOf<T(==)>(s: seq<T>, x: T): nat {
    if |s| == 0 then 0 else if s[0] == x then 0 else 1 + IndexOf(s[1..], x)
  }

  lemma {:induction false} IndexOfMeaning<T>(s: seq<T>, x: T)
    ensures IndexOf(s, x) <= |s| && (IndexOf(s, x) < |s| <==> x in s)
    ensures IndexOf(s, x) < |s| ==> s[IndexOf(s, x)] == x
    ensures forall i :: 0 <= i < IndexOf(s, x) ==> s[i] != x
  {
    if |s| != 0 {
      IndexOfMeaning(s[1..], x);
    }
  }

  function RemoveAt<T>(s: seq<T>, k: nat): seq<T>
    requires k < |s|
  {
    s[..k] + s[k + 1..]
  }

  /** memmove of the entries of a table with max used slots over entry k: the last used slot
      keeps what it holds. */
  function MovedDown<T>(slots: seq<T>, k: nat, max: nat): (r: seq<T>)
    requires k < max <= |slots|
    ensures |r| == |slots|
  {
    slots[..k] + slots[k + 1..max] + slots[max - 1..]
  }

  /** The sequence without the element x. */
  function Without<T(==)>(s: seq<T>, x: T): seq<T> {
    if s == [] then [] else if s[0] == x then Without(s[1..], x) else [s[0]] + Without(s[1..], x)
  }

  lemma {:induction false} WithoutConcat<T>(a: seq<T>, b: seq<T>, x: T)
    ensures Without(a + b, x) == Without(a, x) + Without(b, x)
  {
    if a == [] {
      assert a + b == b;
    } else {
      assert (a + b)[1..] == a[1..] + b;
      WithoutConcat(a[1..], b, x);
    }
  }

  lemma {:induction false} WithoutAbsent<T>(s: seq<T>, x: T)
    requires x !in s
    ensures Without(s, x) == s
  {
    if s != [] {
      WithoutAbsent(s[1..], x);
    }
  }

  lemma WithoutOnly<T>(a: seq<T>, x: T, b: seq<T>)
    requires x !in a && x !in b
    ensures Without(a + [x] + b, x) == a + b
  {
    WithoutConcat(a + [x], b, x);
    WithoutConcat(a, [x], x);
    WithoutAbsent(a, x);
    WithoutAbsent(b, x);
    assert Without([x], x) == [];
    assert a + [] == a;
  }

  lemma SplitOut<T>(s: seq<T>, a: seq<T>, x: T, b: seq<T>)
    requires s == a + [x] + b && Distinct(s)
    ensures Without(s, x) == a + b
  {
    assert s[|a|] == x;
    forall i | 0 <= i < |a| ensures a[i] != x { assert s[i] == a[i]; }
    forall i | 0 <= i < |b| ensures b[i] != x { assert s[|a| + 1 + i] == b[i]; }
    WithoutOnly(a, x, b);
  }
}
