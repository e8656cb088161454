/** `List<Person>.Sort()`, which orders a participant list by `Person.CompareTo`. */
module Sorting {
  import opened Sequences
  import opened Ordering
  import opened Entities

  /** Every person orders no later than every person after them. */
  ghost predicate Ordered(s: seq<Person>)
    reads set p | p in s
  {
    forall i, j :: 0 <= i < j < |s| ==> CompareKeys(s[i].Key(), s[j].Key()) <= 0
  }

  /** Inserting `x` in front of the first element that orders after it keeps a
      list ordered. */
  lemma InsertOrdered(r: seq<Person>, j: int, x: Person)
    requires Ordered(r) && 0 <= j <= |r|
    requires forall k :: 0 <= k < j ==> CompareKeys(r[k].Key(), x.Key()) <= 0
    requires j < |r| ==> CompareKeys(r[j].Key(), x.Key()) > 0
    ensures Ordered(r[..j] + [x] + r[j..])
  {
    var t := r[..j] + [x] + r[j..];
    forall k | j <= k < |r|
      ensures CompareKeys(x.Key(), r[k].Key()) <= 0
    {
      CompareKeysAntisymmetric(r[j].Key(), x.Key());
      if k > j {
        CompareKeysTransitive(x.Key(), r[j].Key(), r[k].Key());
      }
    }
    forall a, b | 0 <= a < b < |t|
      ensures CompareKeys(t[a].Key(), t[b].Key()) <= 0
    {
      if a < j && b == j {
        assert t[a] == r[a] && t[b] == x;
      } else if a == j {
        assert t[a] == x && t[b] == r[b - 1];
      } else if b < j {
        assert t[a] == r[a] && t[b] == r[b];
      } else if a < j {
        assert t[a] == r[a] && t[b] == r[b - 1];
      } else {
        assert t[a] == r[a - 1] && t[b] == r[b - 1];
      }
    }
  }

  /** A permutation of a list without duplicates has no duplicates. */
  lemma {:induction false} PermutationDistinct<T>(s: seq<T>, t: seq<T>)
    requires NoDuplicates(s) && multiset(s) == multiset(t)
    ensures NoDuplicates(t)
  {
    forall i, j | 0 <= i < j < |t|
      ensures t[i] != t[j]
    {
      if t[i] == t[j] {
        assert t == t[..j] + t[j..];
        assert t[i] in t[..j] && t[j] in t[j..];
        assert multiset(t)[t[i]] >= 2;
        DistinctMultiplicity(s, t[i]);
        assert false;
      }
    }
  }

  lemma {:induction false} DistinctMultiplicity<T>(s: seq<T>, x: T)
    requires NoDuplicates(s)
    ensures multiset(s)[x] <= 1
  {
    if s != [] {
      assert s == [s[0]] + s[1..];
      assert NoDuplicates(s[1..]);
      DistinctMultiplicity(s[1..], x);
      if s[0] == x {
        assert x !in s[1..];
      }
    }
  }

  /** The place where insertion puts `x`: after every person that orders no
      later than it, in front of the first one that orders after it. */
  method InsertionPoint(r: seq<Person>, x: Person) returns (j: int)
    ensures 0 <= j <= |r|
    ensures forall k :: 0 <= k < j ==> CompareKeys(r[k].Key(), x.Key()) <= 0
    ensures j < |r| ==> CompareKeys(r[j].Key(), x.Key()) > 0
  {
    j := 0;
    while j < |r| && CompareKeys(r[j].Key(), x.Key()) <= 0
      invariant 0 <= j <= |r|
      invariant forall k :: 0 <= k < j ==> CompareKeys(r[k].Key(), x.Key()) <= 0
    {
      j := j + 1;
    }
  }

  /** Inserts `x` into an ordered list, keeping it ordered. */
  method Insert(r: seq<Person>, x: Person) returns (t: seq<Person>)
    requires Ordered(r)
    ensures Ordered(t)
    ensures multiset(t) == multiset(r) + multiset{x}
  {
    var j := InsertionPoint(r, x);
    InsertOrdered(r, j, x);
    assert r == r[..j] + r[j..];
    t := r[..j] + [x] + r[j..];
  }

  /** Sorts by insertion: the result is ordered by `CompareTo` and holds the
      same persons as the input, each as often. */
  method SortPersons(s: seq<Person>) returns (r: seq<Person>)
    ensures Ordered(r)
    ensures multiset(r) == multiset(s)
  {
    r := [];
    for i := 0 to |s|
      invariant Ordered(r)
      invariant multiset(r) == multiset(s[..i])
    {
      assert s[..i + 1] == s[..i] + [s[i]];
      r := Insert(r, s[i]);
    }
    assert s[..|s|] == s;
  }
}
