/** The two entities the registry links: a person, who keeps the events they
    take part in, and an event, which keeps its participants. An event with a
    participant limit (`EventWithLimit`) is an event whose `withLimit` flag is
    set; the flag stands for its runtime type and never changes. */
module Entities {
  import opened Results
  import opened Sequences
  import opened Ordering

  class Person {
    const lastName: string
    const firstName: string
    var personEvents: seq<Event>

    /** The person's list never holds an event twice. */
    ghost predicate Valid()
      reads this
    {
      NoDuplicates(personEvents)
    }

    /** `CountEventsForPerson`: the number of events in the person's list. */
    function CountEventsForPerson(): nat
      reads this
    {
      |personEvents|
    }

    /** For a person whose list has no duplicates, the count is the number of
        different events the person is registered for. */
    lemma CountIsDistinctEvents()
      requires Valid()
      ensures CountEventsForPerson() == |set e | e in personEvents|
    {
      DistinctLength(personEvents);
    }

    /** The values `CompareTo` orders by. */
    function Key(): SortKey
      reads this
    {
      SortKey(CountEventsForPerson(), lastName, firstName)
    }

    constructor (lastName: string, firstName: string)
      ensures this.lastName == lastName && this.firstName == firstName
      ensures personEvents == [] && CountEventsForPerson() == 0
      ensures Valid()
    {
      this.lastName := lastName;
      this.firstName := firstName;
      personEvents := [];
    }

    /** Appends the event unless it is already listed. The result is always
        false: the flag the source returns is never set. */
    method AddEventToPerson(e: Event) returns (added: bool)
      modifies this`personEvents
      ensures !added
      ensures personEvents == if e in old(personEvents) then old(personEvents) else old(personEvents) + [e]
      ensures old(Valid()) ==> Valid()
    {
      added := false;
      if e !in personEvents {
        personEvents := personEvents + [e];
      }
    }

    /** Removes the event and reports true when it was listed; otherwise the
        list is left as it is and the result is false. */
    method RemoveEventFromPerson(e: Event) returns (removed: bool)
      modifies this`personEvents
      ensures removed == (e in old(personEvents))
      ensures personEvents == RemoveFirst(old(personEvents), e)
      ensures old(Valid()) ==> Valid() && e !in personEvents
    {
      removed := false;
      if e in personEvents {
        if Valid() {
          RemoveFirstDistinct(personEvents, e);
        }
        personEvents := RemoveFirst(personEvents, e);
        removed := true;
      }
    }

    /** `CompareTo`: a null counterpart is an argument error; otherwise the
        sign says whether this person orders before (negative), together with
        (zero) or after (positive) the other. */
    method CompareTo(other: Person?) returns (r: Result<int>)
      ensures other == null ==> r == Err(ArgumentError)
      ensures other != null ==> r == Ok(CompareKeys(Key(), other.Key()))
    {
      if other == null {
        return Err(ArgumentError);
      }
      r := Ok(CompareKeys(Key(), other.Key()));
    }
  }

  class Event {
    const invitor: Person?
    const title: string
    const dateTime: int
    /** True for an `EventWithLimit`, the only kind the registry caps. */
    const withLimit: bool
    /** `EventWithLimit.MaxParticipators`; meaningful only when `withLimit` holds. */
    const maxParticipators: int
    var participators: seq<Person>

    /** The participant list never holds a person twice. */
    ghost predicate Valid()
      reads this
    {
      NoDuplicates(participators)
    }

    /** `PersonInList`: whether the person is a participant. */
    function PersonInList(p: Person): (b: bool)
      reads this
      ensures b <==> exists i :: 0 <= i < |participators| && participators[i] == p
    {
      p in participators
    }

    /** A plain event. */
    constructor (invitor: Person?, title: string, dateTime: int)
      ensures this.invitor == invitor && this.title == title && this.dateTime == dateTime
      ensures !withLimit && participators == [] && Valid()
    {
      this.invitor := invitor;
      this.title := title;
      this.dateTime := dateTime;
      withLimit := false;
      maxParticipators := 0;
      participators := [];
    }

    /** An `EventWithLimit`: the limit is kept exactly as given, zero and
        negative values included. */
    constructor WithLimit(invitor: Person?, title: string, dateTime: int, maxParticipators: int)
      ensures this.invitor == invitor && this.title == title && this.dateTime == dateTime
      ensures withLimit && this.maxParticipators == maxParticipators
      ensures participators == [] && Valid()
    {
      this.invitor := invitor;
      this.title := title;
      this.dateTime := dateTime;
      withLimit := true;
      this.maxParticipators := maxParticipators;
      participators := [];
    }

    /** Appends the person and reports true when absent; otherwise the list is
        left as it is and the result is false. No limit is checked here. */
    method AddParticipatorToEvent(p: Person) returns (added: bool)
      modifies this`participators
      ensures added == (p !in old(participators))
      ensures participators == if added then old(participators) + [p] else old(participators)
      ensures old(Valid()) ==> Valid()
    {
      added := false;
      if p !in participators {
        participators := participators + [p];
        added := true;
      }
    }

    /** Removes the person and reports true when present; otherwise the list
        is left as it is and the result is false. */
    method RemoveParticipatorFromEvent(p: Person) returns (removed: bool)
      modifies this`participators
      ensures removed == (p in old(participators))
      ensures participators == RemoveFirst(old(participators), p)
      ensures old(Valid()) ==> Valid() && p !in participators
    {
      removed := false;
      if p in participators {
        if Valid() {
          RemoveFirstDistinct(participators, p);
        }
        participators := RemoveFirst(participators, p);
        removed := true;
      }
    }

    /** `CancelEvent` is a stub that always throws. */
    method CancelEvent() returns (r: Outcome)
      ensures r == Failed(InvalidOperation)
    {
      r := Failed(InvalidOperation);
    }
  }

  /** Adding an absent person to an event and removing them again restores
      the participant list. */
  method ParticipatorRoundTrip(ev: Event, p: Person)
    requires p !in ev.participators
    modifies ev`participators
    ensures ev.participators == old(ev.participators)
  {
    var added := ev.AddParticipatorToEvent(p);
    var removed := ev.RemoveParticipatorFromEvent(p);
    assert added && removed;
    RemoveFirstOfAppended(old(ev.participators), p);
  }

  /** Adding an absent event to a person and removing it again restores the
      person's list. */
  method PersonEventRoundTrip(person: Person, e: Event)
    requires e !in person.personEvents
    modifies person`personEvents
    ensures person.personEvents == old(person.personEvents)
  {
    var added := person.AddEventToPerson(e);
    var removed := person.RemoveEventFromPerson(e);
    assert removed;
    RemoveFirstOfAppended(old(person.personEvents), e);
  }
}
