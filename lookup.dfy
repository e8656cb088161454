/** What the registry's linear scans compute, stated over the list of events:
    the titles present, the event a title resolves to, and the events a
    person takes part in. */
module Lookup {
  import opened Sequences
  import opened Entities

  /** The titles of the events in `s`. */
  function TitlesOf(s: seq<Event>): set<string> {
    set e | e in s :: e.title
  }

  /** No two events share a title (exact, case-sensitive comparison). */
  predicate TitlesDistinct(s: seq<Event>) {
    forall i, j :: 0 <= i < j < |s| ==> s[i].title != s[j].title
  }

  /** `Char.IsWhiteSpace`: the Unicode space, line and paragraph separators,
      the control characters U+0009 to U+000D, and U+0085. */
  predicate IsWhiteSpace(c: char) {
    c == ' ' || ('\t' <= c <= '\r') || c == '\U{0085}' || c == '\U{00A0}' || c == '\U{1680}'
    || ('\U{2000}' <= c <= '\U{200A}') || c == '\U{2028}' || c == '\U{2029}'
    || c == '\U{202F}' || c == '\U{205F}' || c == '\U{3000}'
  }

  /** `string.IsNullOrWhiteSpace`; a null title is modelled as the empty one. */
  predicate IsBlank(s: string) {
    forall i :: 0 <= i < |s| ==> IsWhiteSpace(s[i])
  }

  /** The white-space test agrees with `Char.IsWhiteSpace` on the characters
      a title is usually made of: space, tab, line feed and carriage return
      are white space; ASCII letters and digits are not. */
  lemma WhiteSpaceClasses(c: char)
    ensures c == ' ' || c == '\t' || c == '\n' || c == '\r' ==> IsWhiteSpace(c)
    ensures 'a' <= c <= 'z' || 'A' <= c <= 'Z' || '0' <= c <= '9' ==> !IsWhiteSpace(c)
  {
  }

  /** A concatenation is blank exactly when both parts are, so the empty
      string is blank and a single visible character anywhere makes a title
      non-blank. */
  lemma {:induction false} BlankConcat(a: string, b: string)
    ensures IsBlank(a + b) <==> IsBlank(a) && IsBlank(b)
  {
    if IsBlank(a + b) {
      forall i | 0 <= i < |a| ensures IsWhiteSpace(a[i]) {
        assert (a + b)[i] == a[i];
      }
      forall i | 0 <= i < |b| ensures IsWhiteSpace(b[i]) {
        assert (a + b)[|a| + i] == b[i];
      }
    }
  }

  lemma TitlesOfAppend(s: seq<Event>, e: Event)
    ensures TitlesOf(s + [e]) == TitlesOf(s) + {e.title}
  {
  }

  /** With distinct titles there are as many titles as events. */
  lemma {:induction false} DistinctTitlesCount(s: seq<Event>)
    requires TitlesDistinct(s)
    ensures |TitlesOf(s)| == |s|
  {
    if s != [] {
      var init := s[..|s| - 1];
      var last := s[|s| - 1];
      assert s == init + [last];
      assert TitlesDistinct(init) by {
        forall a, b | 0 <= a < b < |init| ensures init[a].title != init[b].title {
          assert init[a] == s[a] && init[b] == s[b];
        }
      }
      DistinctTitlesCount(init);
      TitlesOfAppend(init, last);
      assert last.title !in TitlesOf(init) by {
        forall e | e in init ensures e.title != last.title {
          var k :| 0 <= k < |init| && init[k] == e;
          assert s[k] == e;
        }
      }
    }
  }

  /** The event the scan in `GetEvent` ends with: the last one whose title is
      `title`, or null when there is none. */
  function LastWithTitle(s: seq<Event>, title: string): (r: Event?)
    ensures r == null <==> title !in TitlesOf(s)
    ensures r != null ==> r in s && r.title == title
  {
    if s == [] then null
    else
      var init := s[..|s| - 1];
      assert s == init + [s[|s| - 1]];
      TitlesOfAppend(init, s[|s| - 1]);
      if s[|s| - 1].title == title then s[|s| - 1] else LastWithTitle(init, title)
  }

  /** No event after position `k` has the title. */
  predicate NoTitleAfter(s: seq<Event>, title: string, k: int) {
    forall j :: 0 <= j < |s| && j > k ==> s[j].title != title
  }

  /** The event found is the last one with the title: it stands at or after
      any position holding the title, and no later event has the title. */
  lemma {:induction false} LastWithTitleIsLast(s: seq<Event>, title: string, i: int)
    requires 0 <= i < |s| && s[i].title == title
    ensures exists k :: i <= k < |s| && s[k] == LastWithTitle(s, title) && NoTitleAfter(s, title, k)
  {
    var n := |s| - 1;
    if s[n].title == title {
      assert s[n] == LastWithTitle(s, title) && NoTitleAfter(s, title, n);
    } else {
      var init := s[..n];
      LastWithTitleIsLast(init, title, i);
      var k :| i <= k < |init| && init[k] == LastWithTitle(init, title) && NoTitleAfter(init, title, k);
      assert s[k] == LastWithTitle(s, title);
      assert NoTitleAfter(s, title, k);
    }
  }

  /** With distinct titles, every stored event is what its own title resolves to. */
  lemma LastWithTitleFindsMember(s: seq<Event>, e: Event)
    requires TitlesDistinct(s) && e in s
    ensures LastWithTitle(s, e.title) == e
  {
  }

  /** Distinct titles imply distinct event objects. */
  lemma TitlesDistinctNoDuplicates(s: seq<Event>)
    requires TitlesDistinct(s)
    ensures NoDuplicates(s)
  {
  }

  /** The list `GetEventsForPerson` builds: the events of `s` in which `p` is
      a participant, in the order of `s`. */
  function EventsWith(s: seq<Event>, p: Person): (r: seq<Event>)
    reads set e | e in s
    ensures forall e :: e in r ==> e in s
    ensures forall e :: e in s ==> (e in r <==> p in e.participators)
    ensures |r| <= |s|
  {
    if s == [] then []
    else
      var init := s[..|s| - 1];
      var last := s[|s| - 1];
      assert s == init + [last];
      EventsWith(init, p) + (if p in last.participators then [last] else [])
  }

  /** Selecting from a list without duplicates gives a list without duplicates. */
  lemma {:induction false} EventsWithDistinct(s: seq<Event>, p: Person)
    requires NoDuplicates(s)
    ensures NoDuplicates(EventsWith(s, p))
  {
    if s != [] {
      var init := s[..|s| - 1];
      assert NoDuplicates(init);
      EventsWithDistinct(init, p);
      assert s[|s| - 1] !in init;
    }
  }
}
