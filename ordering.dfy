/** The ordering `Person.CompareTo` defines, stated on the three values it
    looks at: the number of events, the last name and the first name. */
module Ordering {

  /** What `Person.CompareTo` reads from a person. */
  datatype SortKey = SortKey(eventCount: int, lastName: string, firstName: string)

  /** `Int32.CompareTo`: -1, 0 or 1 as `a` is below, equal to or above `b`. */
  function CompareInts(a: int, b: int): (r: int)
    ensures r == 0 <==> a == b
    ensures r < 0 <==> a < b
    ensures -1 <= r <= 1
  {
    if a < b then -1 else if a == b then 0 else 1
  }

  /** Name comparison, taken as ordinal lexicographic order on characters. */
  function CompareStrings(a: string, b: string): (r: int)
    ensures -1 <= r <= 1
    ensures r == 0 <==> a == b
  {
    if a == [] then (if b == [] then 0 else -1)
    else if b == [] then 1
    else if a[0] < b[0] then -1
    else if a[0] > b[0] then 1
    else
      assert a == [a[0]] + a[1..] && b == [b[0]] + b[1..];
      CompareStrings(a[1..], b[1..])
  }

  lemma {:induction false} CompareStringsAntisymmetric(a: string, b: string)
    ensures CompareStrings(b, a) == -CompareStrings(a, b)
  {
    if a != [] && b != [] && a[0] == b[0] {
      CompareStringsAntisymmetric(a[1..], b[1..]);
    }
  }

  lemma {:induction false} CompareStringsTransitive(a: string, b: string, c: string)
    requires CompareStrings(a, b) <= 0 && CompareStrings(b, c) <= 0
    ensures CompareStrings(a, c) <= 0
  {
    if a != [] && b != [] && c != [] && a[0] == b[0] == c[0] {
      CompareStringsTransitive(a[1..], b[1..], c[1..]);
    }
  }

  /** `Person.CompareTo` on two non-null persons: more events first; with
      equal counts, by last name, then by first name. */
  function CompareKeys(a: SortKey, b: SortKey): (r: int)
    ensures -1 <= r <= 1
    ensures r == 0 <==> a == b
    ensures a.eventCount > b.eventCount ==> r < 0
    ensures a.eventCount < b.eventCount ==> r > 0
  {
    if CompareInts(a.eventCount, b.eventCount) == 0 then
      if CompareStrings(a.lastName, b.lastName) == 0 then
        CompareStrings(a.firstName, b.firstName)
      else
        CompareStrings(a.lastName, b.lastName)
    else
      CompareInts(a.eventCount, b.eventCount) * -1
  }

  /** With equal event counts the last name decides, and on equal last names the first name. */
  lemma NameTieBreak(a: SortKey, b: SortKey)
    requires a.eventCount == b.eventCount
    ensures a.lastName != b.lastName ==> CompareKeys(a, b) == CompareStrings(a.lastName, b.lastName)
    ensures a.lastName == b.lastName ==> CompareKeys(a, b) == CompareStrings(a.firstName, b.firstName)
  {
  }

  /** Swapping the arguments flips the sign of the comparison. */
  lemma CompareKeysAntisymmetric(a: SortKey, b: SortKey)
    ensures CompareKeys(b, a) == -CompareKeys(a, b)
  {
    CompareStringsAntisymmetric(a.lastName, b.lastName);
    CompareStringsAntisymmetric(a.firstName, b.firstName);
  }

  /** "Orders no later than" is transitive, so `CompareKeys` is a total order. */
  lemma CompareKeysTransitive(a: SortKey, b: SortKey, c: SortKey)
    requires CompareKeys(a, b) <= 0 && CompareKeys(b, c) <= 0
    ensures CompareKeys(a, c) <= 0
  {
    if a.eventCount == b.eventCount == c.eventCount {
      if a.lastName == b.lastName == c.lastName {
        CompareStringsTransitive(a.firstName, b.firstName, c.firstName);
      } else if a.lastName == b.lastName {
        assert CompareStrings(b.lastName, c.lastName) <= 0;
      } else if b.lastName == c.lastName {
        assert CompareStrings(a.lastName, b.lastName) <= 0;
      } else {
        CompareStringsTransitive(a.lastName, b.lastName, c.lastName);
        if a.lastName == c.lastName {
          CompareStringsAntisymmetric(a.lastName, b.lastName);
        }
      }
    }
  }
}
