/** The registry (`Controller`): it owns the events, enforces unique titles,
    the participant limit and membership rules, and keeps both sides of the
    person-event relation in step. */
module Logic {
  import opened Results
  import opened Sequences
  import opened Entities
  import opened Lookup
  import opened Sorting

  /** The registry's invariant, stated on values: `events` are the stored
      events, `parts` maps each of them to its participant list, `people` are
      the persons the registry has registered and `lists` maps each of them to
      the events on their own list. Titles are pairwise distinct, no list holds
      an entry twice, a capped event holds no more participants than its cap
      (a cap below one keeps it empty), and a person is a participant of a
      stored event exactly when that event is on the person's list. */
  ghost predicate Consistent(events: seq<Event>, parts: map<Event, seq<Person>>, lists: map<Person, seq<Event>>)
  {
    && TitlesDistinct(events)
    && (forall e :: e in events ==> e in parts)
    && (forall e :: e in parts ==> e in events)
    && (forall e :: e in parts ==> NoDuplicates(parts[e]))
    && (forall e :: e in parts && e.withLimit ==> |parts[e]| <= e.maxParticipators || parts[e] == [])
    && (forall e, p :: e in parts && p in parts[e] ==> p in lists && e in lists[p])
    && (forall p, e :: p in lists && e in lists[p] ==> e in parts && p in parts[e])
    && (forall p :: p in lists ==> NoDuplicates(lists[p]))
  }

  /** Creating an event with a fresh title and no participants keeps the
      registry consistent. */
  lemma CreateKeepsConsistent(events: seq<Event>, parts: map<Event, seq<Person>>,
                              lists: map<Person, seq<Event>>, e: Event)
    requires Consistent(events, parts, lists)
    requires e.title !in TitlesOf(events)
    ensures e !in parts
    ensures Consistent(events + [e], parts[e := []], lists)
  {
  }

  /** Adding an absent person to a stored event that has room, and the event
      to that person's list, keeps the registry consistent. `before` is the
      person's list, which is empty for a person the registry does not know. */
  lemma RegisterKeepsConsistent(events: seq<Event>, parts: map<Event, seq<Person>>,
                                lists: map<Person, seq<Event>>, person: Person, before: seq<Event>, ev: Event)
    requires Consistent(events, parts, lists)
    requires ev in parts && person !in parts[ev]
    requires ev.withLimit ==> |parts[ev]| < ev.maxParticipators
    requires if person in lists then before == lists[person] else before == []
    ensures ev !in before
    ensures Consistent(events, parts[ev := parts[ev] + [person]], lists[person := before + [ev]])
  {
    AppendDistinct(parts[ev], person);
    AppendDistinct(before, ev);
  }

  /** Removing a participant from a stored event, and the event from that
      person's list, keeps the registry consistent. */
  lemma {:induction false} UnregisterKeepsConsistent(events: seq<Event>, parts: map<Event, seq<Person>>,
                                  lists: map<Person, seq<Event>>, person: Person, ev: Event,
                                  shrunk: seq<Person>, unlisted: seq<Event>)
    requires Consistent(events, parts, lists)
    requires ev in parts && person in parts[ev] && person in lists
    requires shrunk == RemoveFirst(parts[ev], person) && unlisted == RemoveFirst(lists[person], ev)
    ensures Consistent(events, parts[ev := shrunk], lists[person := unlisted])
  {
    RemoveFirstDistinct(parts[ev], person);
    RemoveFirstDistinct(lists[person], ev);
    var parts', lists' := parts[ev := shrunk], lists[person := unlisted];
    forall e, p | e in parts' && p in parts'[e]
      ensures p in lists' && e in lists'[p]
    {
      if e == ev {
        assert p in shrunk;
        assert p in parts[ev] && p != person;
        assert lists'[p] == lists[p];
      } else {
        assert p in parts[e];
        if p == person {
          assert e in lists[person];
          assert e in unlisted;
        }
      }
    }
    forall p, e | p in lists' && e in lists'[p]
      ensures e in parts' && p in parts'[e]
    {
      if p == person {
        assert e in unlisted;
        assert e in lists[person] && e != ev;
        assert parts'[e] == parts[e];
      } else {
        assert e in lists[p];
        if e == ev {
          assert p in parts[ev];
          assert p in shrunk;
        }
      }
    }
  }

  /** Replacing a stored event's participant list by a permutation of it
      keeps the registry consistent. */
  lemma PermuteKeepsConsistent(events: seq<Event>, parts: map<Event, seq<Person>>,
                               lists: map<Person, seq<Event>>, ev: Event, t: seq<Person>)
    requires Consistent(events, parts, lists)
    requires ev in parts && multiset(t) == multiset(parts[ev])
    ensures Consistent(events, parts[ev := t], lists)
  {
    PermutationDistinct(parts[ev], t);
    assert |t| == |parts[ev]| by {
      assert |multiset(t)| == |multiset(parts[ev])|;
    }
    forall p ensures p in t <==> p in parts[ev] {
      assert p in t <==> p in multiset(t);
      assert p in parts[ev] <==> p in multiset(parts[ev]);
    }
  }

  class Controller {
    var events: seq<Event>
    /** Each stored event with its participant list. */
    ghost var parts: map<Event, seq<Person>>
    /** Each person this registry has registered, with their list of events. */
    ghost var lists: map<Person, seq<Event>>

    /** The ghost maps mirror the objects' lists, and together with the
        stored events they are consistent. */
    ghost predicate Valid()
      reads this, parts.Keys, lists.Keys
    {
      && Consistent(events, parts, lists)
      && (forall e :: e in parts ==> e.participators == parts[e])
      && (forall p :: p in lists ==> p.personEvents == lists[p])
    }

    /** Every event on the person's list was put there by this registry: the
        person has been registered here, or is registered for nothing. */
    ghost predicate Tracked(p: Person)
      reads this, p
    {
      p in lists || p.personEvents == []
    }

    constructor ()
      ensures Valid() && events == [] && parts == map[] && lists == map[]
    {
      events := [];
      parts, lists := map[], map[];
    }

    /** `EventsCount`: the number of stored events. */
    function EventsCount(): nat
      reads this
    {
      |events|
    }

    /** In a valid registry the count is the number of different titles in use. */
    lemma EventsCountIsTitleCount()
      requires Valid()
      ensures EventsCount() == |TitlesOf(events)|
    {
      DistinctTitlesCount(events);
    }

    /** Stores a new event. A null invitor, an empty (or null) title, a date
        before `now` and a title already in use are argument errors that leave
        the registry as it is; a date equal to `now` is accepted. A limit of 0
        gives a plain event, any other limit a capped one. */
    method CreateEvent(invitor: Person?, title: string, dateTime: int, now: int, maxParticipators: int := 0)
      returns (r: Result<bool>)
      requires Valid()
      modifies this`events, this`parts
      ensures Valid() && lists == old(lists)
      ensures r == if invitor == null || title == [] || dateTime < now || title in TitlesOf(old(events))
                   then Err(ArgumentError) else Ok(true)
      ensures r.Err? ==> events == old(events)
      ensures r.Ok? ==> EventsCount() == old(EventsCount()) + 1 && events[..|old(events)|] == old(events)
      ensures r.Ok? ==> var e := events[|events| - 1];
                        fresh(e) && e.invitor == invitor && e.title == title && e.dateTime == dateTime
                        && e.participators == [] && e.withLimit == (maxParticipators != 0)
                        && (e.withLimit ==> e.maxParticipators == maxParticipators)
    {
      if invitor == null {
        return Err(ArgumentError);
      }
      if title == [] {
        return Err(ArgumentError);
      }
      if dateTime < now {
        return Err(ArgumentError);
      }
      var unique := UniqueTitle(title);
      if !unique {
        return Err(ArgumentError);
      }
      var e: Event;
      if maxParticipators == 0 {
        e := new Event(invitor, title, dateTime);
      } else {
        e := new Event.WithLimit(invitor, title, dateTime, maxParticipators);
      }
      CreateKeepsConsistent(events, parts, lists, e);
      events := events + [e];
      parts := parts[e := []];
      r := Ok(true);
    }

    /** True exactly when no stored event has the title. */
    method UniqueTitle(title: string) returns (isUnique: bool)
      ensures isUnique <==> title !in TitlesOf(events)
      ensures isUnique <==> forall e :: e in events ==> e.title != title
    {
      isUnique := true;
      for i := 0 to |events|
        invariant isUnique <==> title !in TitlesOf(events[..i])
      {
        assert events[..i + 1] == events[..i] + [events[i]];
        TitlesOfAppend(events[..i], events[i]);
        if events[i].title == title {
          isUnique := false;
        }
      }
      assert events[..|events|] == events;
    }

    /** A blank (or null) title is an argument error; otherwise the result is
        null exactly when the title is unused, and else the last stored event
        with exactly that title. */
    method GetEvent(title: string) returns (r: Result<Event?>)
      ensures IsBlank(title) ==> r == Err(ArgumentError)
      ensures !IsBlank(title) ==> r == Ok(LastWithTitle(events, title))
      ensures r.Ok? ==> (r.value == null <==> title !in TitlesOf(events))
      ensures r.Ok? && r.value != null ==> r.value in events && r.value.title == title
    {
      if IsBlank(title) {
        return Err(ArgumentError);
      }
      var found: Event? := null;
      for i := 0 to |events|
        invariant found == LastWithTitle(events[..i], title)
      {
        assert events[..i + 1][..i] == events[..i];
        if events[i].title == title {
          found := events[i];
        }
      }
      assert events[..|events|] == events;
      r := Ok(found);
    }

    /** Registers the person for the event. Null arguments are argument
        errors; a capped event that is full refuses with an invalid
        operation. The event is then looked up by its title: a blank title is
        an argument error, an unknown title a null dereference, and a
        different stored event with that title a plain `false`. A person
        already registered is refused; otherwise both lists grow by one. */
    method RegisterPersonForEvent(person: Person?, ev: Event?) returns (r: Result<bool>)
      requires Valid()
      requires person != null ==> Tracked(person)
      modifies this`parts, this`lists, ev, person
      ensures Valid() && events == old(events)
      ensures ev == null || person == null ==> r == Err(ArgumentError)
      ensures ev != null && person != null ==>
        r == if ev.withLimit && |old(ev.participators)| >= ev.maxParticipators then Err(InvalidOperation)
             else if IsBlank(ev.title) then Err(ArgumentError)
             else if ev.title !in TitlesOf(events) then Err(NullReference)
             else if ev !in events then Ok(false)
             else if person in old(ev.participators) then Err(InvalidOperation)
             else Ok(true)
      ensures r == Ok(true) ==>
        && ev.participators == old(ev.participators) + [person]
        && person.personEvents == old(person.personEvents) + [ev]
        && lists == old(lists)[person := old(person.personEvents) + [ev]]
        && parts == old(parts)[ev := old(ev.participators) + [person]]
      ensures r != Ok(true) ==>
        && (ev != null ==> ev.participators == old(ev.participators))
        && (person != null ==> person.personEvents == old(person.personEvents))
        && lists == old(lists) && parts == old(parts)
    {
      if ev == null {
        return Err(ArgumentError);
      }
      if person == null {
        return Err(ArgumentError);
      }
      if ev.withLimit {
        if |ev.participators| < ev.maxParticipators {
          r := Enroll(person, ev);
        } else {
          r := Err(InvalidOperation);
        }
      } else {
        r := Enroll(person, ev);
      }
    }

    /** The part both branches of `RegisterPersonForEvent` share: confirm the
        event by its title, then add each side to the other. */
    method Enroll(person: Person, ev: Event) returns (r: Result<bool>)
      requires Valid() && Tracked(person)
      requires ev.withLimit ==> |ev.participators| < ev.maxParticipators
      modifies this`parts, this`lists, ev, person
      ensures Valid() && events == old(events)
      ensures r == if IsBlank(ev.title) then Err(ArgumentError)
                   else if ev.title !in TitlesOf(events) then Err(NullReference)
                   else if ev !in events then Ok(false)
                   else if person in old(ev.participators) then Err(InvalidOperation)
                   else Ok(true)
      ensures r == Ok(true) ==>
        && ev.participators == old(ev.participators) + [person]
        && person.personEvents == old(person.personEvents) + [ev]
        && lists == old(lists)[person := old(person.personEvents) + [ev]]
        && parts == old(parts)[ev := old(ev.participators) + [person]]
      ensures r != Ok(true) ==>
        && ev.participators == old(ev.participators)
        && person.personEvents == old(person.personEvents)
        && lists == old(lists) && parts == old(parts)
    {
      r := Confirm(ev);
      if r == Ok(true) {
        r := Link(person, ev);
      }
    }

    /** The title lookup both registration and unregistration start with: a
        blank title is an argument error, an unknown title a null dereference,
        and otherwise the result says whether the event found under the title
        is this very event, which holds exactly when the event is stored. */
    method Confirm(ev: Event) returns (r: Result<bool>)
      requires TitlesDistinct(events)
      ensures r == if IsBlank(ev.title) then Err(ArgumentError)
                   else if ev.title !in TitlesOf(events) then Err(NullReference)
                   else Ok(ev in events)
    {
      var found := GetEvent(ev.title);
      if found.Err? {
        return Err(found.error);
      }
      if found.value == null {
        return Err(NullReference);
      }
      if ev in events {
        LastWithTitleFindsMember(events, ev);
      }
      r := Ok(found.value == ev);
    }

    /** Adds a stored event with room and a person to each other's lists,
        refusing a person who already takes part. */
    method Link(person: Person, ev: Event) returns (r: Result<bool>)
      requires Valid() && Tracked(person) && ev in events
      requires ev.withLimit ==> |ev.participators| < ev.maxParticipators
      modifies this`parts, this`lists, ev, person
      ensures Valid() && events == old(events)
      ensures r == if person in old(ev.participators) then Err(InvalidOperation) else Ok(true)
      ensures r == Ok(true) ==>
        && ev.participators == old(ev.participators) + [person]
        && person.personEvents == old(person.personEvents) + [ev]
        && lists == old(lists)[person := old(person.personEvents) + [ev]]
        && parts == old(parts)[ev := old(ev.participators) + [person]]
      ensures r != Ok(true) ==>
        && ev.participators == old(ev.participators)
        && person.personEvents == old(person.personEvents)
        && lists == old(lists) && parts == old(parts)
    {
      var added := ev.AddParticipatorToEvent(person);
      if !added {
        return Err(InvalidOperation);
      }
      RegisterKeepsConsistent(events, parts, lists, person, old(person.personEvents), ev);
      var listed := person.AddEventToPerson(ev);
      parts := parts[ev := ev.participators];
      lists := lists[person := person.personEvents];
      r := Ok(true);
    }

    /** Unregisters the person from the event. Null arguments are argument
        errors; the event is then looked up by its title as in registration.
        A person who is not a participant is refused with an invalid
        operation; otherwise each side is removed from the other. */
    method UnregisterPersonForEvent(person: Person?, ev: Event?) returns (r: Result<bool>)
      requires Valid()
      modifies this`parts, this`lists, ev, person
      ensures Valid() && events == old(events)
      ensures person == null || ev == null ==> r == Err(ArgumentError)
      ensures person != null && ev != null ==>
        r == if IsBlank(ev.title) then Err(ArgumentError)
             else if ev.title !in TitlesOf(events) then Err(NullReference)
             else if ev !in events then Ok(false)
             else if person !in old(ev.participators) then Err(InvalidOperation)
             else Ok(true)
      ensures r == Ok(true) ==>
        && ev.participators == RemoveFirst(old(ev.participators), person as Person)
        && person.personEvents == RemoveFirst(old(person.personEvents), ev as Event)
        && person !in ev.participators && ev !in person.personEvents
      ensures r == Ok(true) ==>
        && parts == old(parts)[ev as Event := ev.participators]
        && lists == old(lists)[person as Person := person.personEvents]
      ensures r != Ok(true) ==>
        && (ev != null ==> ev.participators == old(ev.participators))
        && (person != null ==> person.personEvents == old(person.personEvents))
        && lists == old(lists) && parts == old(parts)
    {
      if person == null {
        return Err(ArgumentError);
      }
      if ev == null {
        return Err(ArgumentError);
      }
      r := Confirm(ev);
      if r == Ok(true) {
        r := Unlink(person, ev);
      }
    }

    /** Removes a participant of a stored event and the event from each
        other's lists, refusing a person who does not take part. */
    method Unlink(person: Person, ev: Event) returns (r: Result<bool>)
      requires Valid() && ev in events
      modifies this`parts, this`lists, ev, person
      ensures Valid() && events == old(events)
      ensures r == if person !in old(ev.participators) then Err(InvalidOperation) else Ok(true)
      ensures r == Ok(true) ==>
        && ev.participators == RemoveFirst(old(ev.participators), person)
        && person.personEvents == RemoveFirst(old(person.personEvents), ev)
        && person !in ev.participators && ev !in person.personEvents
        && parts == old(parts)[ev := ev.participators]
        && lists == old(lists)[person := person.personEvents]
      ensures r != Ok(true) ==>
        && ev.participators == old(ev.participators)
        && person.personEvents == old(person.personEvents)
        && lists == old(lists) && parts == old(parts)
    {
      assert ev in parts && ev.participators == parts[ev];
      var removed := ev.RemoveParticipatorFromEvent(person);
      if removed {
        assert person in lists && person.personEvents == lists[person];
        var unlisted := person.RemoveEventFromPerson(ev);
        UnregisterKeepsConsistent(events, parts, lists, person, ev, ev.participators, person.personEvents);
        parts := parts[ev := ev.participators];
        lists := lists[person := person.personEvents];
        r := Ok(true);
      } else {
        r := Err(InvalidOperation);
      }
    }

    /** A null event is an argument error; otherwise the event's own
        participant list is sorted in place by `Person.CompareTo` and
        returned: it is ordered and holds the same persons as before. */
    method GetParticipatorsForEvent(ev: Event?) returns (r: Result<seq<Person>>)
      requires Valid()
      modifies this`parts, ev
      ensures Valid() && events == old(events) && lists == old(lists)
      ensures ev == null ==> r == Err(ArgumentError)
      ensures ev != null ==> r == Ok(ev.participators)
      ensures ev != null ==> Ordered(ev.participators)
      ensures ev != null ==> multiset(ev.participators) == multiset(old(ev.participators))
    {
      if ev == null {
        return Err(ArgumentError);
      }
      var sorted := SortPersons(ev.participators);
      Reorder(ev, sorted);
      r := Ok(sorted);
    }

    /** Replaces an event's participant list by a permutation of it. */
    method Reorder(ev: Event, sorted: seq<Person>)
      requires Valid() && multiset(sorted) == multiset(ev.participators)
      modifies this`parts, ev
      ensures Valid() && events == old(events) && lists == old(lists)
      ensures ev.participators == sorted
    {
      if ev in parts {
        PermuteKeepsConsistent(events, parts, lists, ev, sorted);
        parts := parts[ev := sorted];
      }
      ev.participators := sorted;
    }

    /** A null person is an argument error; otherwise the stored events the
        person takes part in, in registry order. */
    method GetEventsForPerson(person: Person?) returns (r: Result<seq<Event>>)
      ensures person == null ==> r == Err(ArgumentError)
      ensures person != null ==> r == Ok(EventsWith(events, person))
    {
      if person == null {
        return Err(ArgumentError);
      }
      var found: seq<Event> := [];
      for i := 0 to |events|
        invariant found == EventsWith(events[..i], person)
      {
        assert events[..i + 1][..i] == events[..i];
        if events[i].PersonInList(person) {
          found := found + [events[i]];
        }
      }
      assert events[..|events|] == events;
      r := Ok(found);
    }

    /** A null person is an argument error; otherwise the length of the
        person's list, which in a valid registry equals the number of stored
        events the person takes part in. */
    method CountEventsForPerson(participator: Person?) returns (r: Result<int>)
      ensures participator == null ==> r == Err(ArgumentError)
      ensures participator != null ==> r == Ok(participator.CountEventsForPerson())
      ensures participator != null && Valid() && Tracked(participator) ==>
        r == Ok(|EventsWith(events, participator)|)
    {
      if participator == null {
        return Err(ArgumentError);
      }
      if Valid() && Tracked(participator) {
        CountMatchesEvents(participator);
      }
      r := Ok(participator.CountEventsForPerson());
    }

    /** The person's own count agrees with the events the registry lists for them. */
    lemma CountMatchesEvents(p: Person)
      requires Valid() && Tracked(p)
      ensures |EventsWith(events, p)| == p.CountEventsForPerson()
    {
      var listed := EventsWith(events, p);
      if p in lists {
        TitlesDistinctNoDuplicates(events);
        EventsWithDistinct(events, p);
        SameElementsSameLength(listed, p.personEvents);
      } else {
        assert forall e :: e in events ==> p !in e.participators by {
          assert forall e :: e in events ==> e in parts && e.participators == parts[e];
        }
        EventsWithDistinct(events, p) by {
          TitlesDistinctNoDuplicates(events);
        }
        SameElementsSameLength(listed, []);
      }
    }
  }

  /** Registering a person for a stored event and unregistering them again
      succeeds both times and restores both lists. */
  method RegisterUnregisterRoundTrip(c: Controller, person: Person, ev: Event)
    returns (registered: Result<bool>, unregistered: Result<bool>)
    requires c.Valid() && c.Tracked(person)
    requires ev in c.events && !IsBlank(ev.title) && person !in ev.participators
    requires ev.withLimit ==> |ev.participators| < ev.maxParticipators
    modifies c`parts, c`lists, ev, person
    ensures registered == Ok(true) && unregistered == Ok(true)
    ensures ev.participators == old(ev.participators)
    ensures person.personEvents == old(person.personEvents)
    ensures c.Valid()
  {
    assert ev.title in TitlesOf(c.events);
    registered := c.RegisterPersonForEvent(person, ev);
    unregistered := c.UnregisterPersonForEvent(person, ev);
    RemoveFirstOfAppended(old(ev.participators), person);
    assert ev !in old(person.personEvents);
    RemoveFirstOfAppended(old(person.personEvents), ev);
  }
}
