# Event calendar registry

A model of the event-calendar registry (`EventCalendar.Logic.Controller`)
and the two entities it links. A `Person` keeps the list of events they take
part in. An `Event` keeps its list of participants. An `EventWithLimit` is an
event with a participant cap.

The registry:
- stores events under titles that must be unique;
- registers and unregisters persons for stored events, keeping both sides of
  the person–event relation in step;
- hands out a participant list sorted by `Person.CompareTo`: more events
  first, then last name, then first name;
- lists the events a person takes part in and counts them.

Files:
- `results.dfy`: how the model spells the exceptions the source throws
  (`ArgumentError` for `ArgumentException` and `ArgumentNullException`,
  `InvalidOperation`, `NullReference`).
- `sequences.dfy`: `List<T>.Remove` (first occurrence) and duplicate-free lists.
- `ordering.dfy`: the comparison `Person.CompareTo` defines, with its order laws.
- `entities.dfy`: the `Person` and `Event` classes, whose lists are updated in place.
- `lookup.dfy`: what the registry's linear scans compute over the stored events.
- `sorting.dfy`: `List<Person>.Sort()` as an insertion sort.
- `controller.dfy`: the `Controller` class and the registry invariant.

The registry invariant `Logic.Consistent` has two parts:
- Titles are pairwise distinct. No list holds an entry twice. A capped event
  stays within its cap.
- A person is a participant of a stored event exactly when that event is on
  the person's own list.

`Controller` carries two ghost maps that mirror the objects' lists. Its
`Valid()` says the maps agree with the heap and are consistent. Every
state-changing operation keeps `Valid()`.

## Model

| member | source | states |
|---|---|---|
| Entities.Person.constructor | EventCalenderException/EventCalender/source/EventCalendar.Entities/Person.cs:29-34 | the names are stored; the person's list starts empty, so the count is 0 |
| Entities.Person.AddEventToPerson | EventCalenderException/EventCalender/source/EventCalendar.Entities/Person.cs:36-46 | the event is appended exactly when it is not yet listed; the result is always false; a duplicate-free list stays duplicate-free |
| Entities.Person.RemoveEventFromPerson | EventCalenderException/EventCalender/source/EventCalendar.Entities/Person.cs:48-59 | the result is true exactly when the event was listed; the first occurrence is removed, otherwise the list is unchanged; in a duplicate-free list no trace of the event remains |
| Entities.Person.CompareTo | EventCalenderException/EventCalender/source/EventCalendar.Entities/Person.cs:61-80 | a null counterpart is an argument error; otherwise the sign is that of the key comparison of the two persons |
| Ordering.CompareInts | EventCalenderException/EventCalender/source/EventCalendar.Entities/Person.cs:68 | result in -1..1; zero exactly on equal values; negative exactly when the first is smaller |
| Ordering.CompareStrings | EventCalenderException/EventCalender/source/EventCalendar.Entities/Person.cs:70-76 | result in -1..1; zero exactly on equal names |
| Ordering.CompareStringsAntisymmetric | EventCalenderException/EventCalender/source/EventCalendar.Entities/Person.cs:70-76 | swapping the two names negates the comparison |
| Ordering.CompareStringsTransitive | EventCalenderException/EventCalender/source/EventCalendar.Entities/Person.cs:70-76 | "orders no later than" on names is transitive |
| Ordering.CompareKeys | EventCalenderException/EventCalender/source/EventCalendar.Entities/Person.cs:68-79 | result in -1..1; zero exactly on equal keys; a person with more events orders first, one with fewer orders after |
| Ordering.NameTieBreak | EventCalenderException/EventCalender/source/EventCalendar.Logic/Controller.cs:214-217 | with equal counts, different last names decide the order, and on equal last names the first names decide |
| Ordering.CompareKeysAntisymmetric | EventCalenderException/EventCalender/source/EventCalendar.Entities/Person.cs:61-80 | swapping the two persons negates the comparison |
| Ordering.CompareKeysTransitive | EventCalenderException/EventCalender/source/EventCalendar.Entities/Person.cs:61-80 | the comparison is transitive, so with antisymmetry it is a total order that sorting can rely on |
| Entities.Event.PersonInList | EventCalenderException/EventCalender/source/EventCalendar.Entities/Event.cs:47-50 | true exactly when some position of the participant list holds the person |
| Entities.Event.constructor | EventCalenderException/EventCalender/source/EventCalendar.Entities/Event.cs:13-19 | invitor, title and date are stored; the event is uncapped and has no participants |
| Entities.Event.WithLimit | EventCalenderException/EventCalender/source/EventCalendar.Entities/EventWithLimit.cs:11-15 | as the plain constructor, but capped, with the limit kept exactly as given |
| Entities.Event.AddParticipatorToEvent | EventCalenderException/EventCalender/source/EventCalendar.Entities/Event.cs:21-32 | the result is true exactly when the person was absent, and then the person is appended; otherwise the list is unchanged; no limit is checked |
| Entities.Event.RemoveParticipatorFromEvent | EventCalenderException/EventCalender/source/EventCalendar.Entities/Event.cs:34-45 | the result is true exactly when the person was present; the first occurrence is removed, otherwise the list is unchanged; in a duplicate-free list no trace of the person remains |
| Entities.Event.CancelEvent | EventCalenderException/EventCalender/source/EventCalendar.Entities/Event.cs:52-55 | always fails with an invalid operation |
| Entities.ParticipatorRoundTrip | EventCalenderException/EventCalender/source/EventCalendar.Entities/Event.cs:21-45 | adding an absent person and then removing them restores the participant list |
| Entities.PersonEventRoundTrip | EventCalenderException/EventCalender/source/EventCalendar.Entities/Person.cs:36-59 | adding an absent event and then removing it restores the person's list |
| Sequences.RemoveFirst | EventCalenderException/EventCalender/source/EventCalendar.Entities/Event.cs:40 | `List.Remove`: a list without the element is unchanged; otherwise exactly one element goes, and nothing new appears |
| Sequences.RemoveFirstMultiset | EventCalenderException/EventCalender/source/EventCalendar.Entities/Person.cs:54 | removal takes away exactly one occurrence and keeps every other multiplicity |
| Sequences.RemoveFirstOfAppended | EventCalenderException/EventCalender/source/EventCalendar.Entities/Event.cs:27-40 | removal undoes the append of an absent element |
| Sequences.RemoveFirstDistinct | EventCalenderException/EventCalender/source/EventCalendar.Entities/Event.cs:38-40 | on a duplicate-free list, removal leaves it duplicate-free and leaves exactly the other elements |
| Entities.Person.CountIsDistinctEvents | EventCalenderException/EventCalender/source/EventCalendar.Entities/Person.cs:20-26 | `CountEventsForPerson`: for a person whose list has no duplicates, the count is the number of different events the person is registered for |
| Logic.Controller.EventsCountIsTitleCount | EventCalenderException/EventCalender/source/EventCalendar.Logic/Controller.cs:13 | `EventsCount`: in a valid registry the number of stored events equals the number of different titles in use |
| Lookup.WhiteSpaceClasses | EventCalenderException/EventCalender/source/EventCalendar.Logic/Controller.cs:95 | `IsWhiteSpace`, the character test of `string.IsNullOrWhiteSpace`: space, tab, line feed and carriage return are white space; ASCII letters and digits are not |
| Lookup.BlankConcat | EventCalenderException/EventCalender/source/EventCalendar.Logic/Controller.cs:95 | `IsBlank`, the model of `string.IsNullOrWhiteSpace`: a concatenation is blank exactly when both parts are |
| Lookup.TitlesOfAppend | EventCalenderException/EventCalender/source/EventCalendar.Logic/Controller.cs:74-86 | appending an event adds exactly its title to the set of titles |
| Lookup.DistinctTitlesCount | EventCalenderException/EventCalender/source/EventCalendar.Logic/Controller.cs:51-54 | with distinct titles there are exactly as many titles as events |
| Lookup.LastWithTitle | EventCalenderException/EventCalender/source/EventCalendar.Logic/Controller.cs:99-107 | the scan finds null exactly when no event has the title, and otherwise a stored event with exactly that title |
| Lookup.LastWithTitleIsLast | EventCalenderException/EventCalender/source/EventCalendar.Logic/Controller.cs:100-106 | the event found is the last one with the title: no later event has it |
| Lookup.LastWithTitleFindsMember | EventCalenderException/EventCalender/source/EventCalendar.Logic/Controller.cs:137 | with distinct titles, every stored event is what its own title resolves to |
| Lookup.TitlesDistinctNoDuplicates | EventCalenderException/EventCalender/source/EventCalendar.Logic/Controller.cs:51-54 | unique titles imply no event is stored twice |
| Lookup.EventsWith | EventCalenderException/EventCalender/source/EventCalendar.Logic/Controller.cs:255-262 | the selection holds only stored events, and holds a stored event exactly when the person takes part in it |
| Lookup.EventsWithDistinct | EventCalenderException/EventCalender/source/EventCalendar.Logic/Controller.cs:255-262 | selecting from a duplicate-free list gives a duplicate-free list |
| Sorting.InsertOrdered | EventCalenderException/EventCalender/source/EventCalendar.Logic/Controller.cs:233 | inserting before the first person that orders after the new one keeps a list ordered |
| Sorting.PermutationDistinct | EventCalenderException/EventCalender/source/EventCalendar.Logic/Controller.cs:232-233 | a permutation of a duplicate-free list is duplicate-free |
| Sorting.DistinctMultiplicity | EventCalenderException/EventCalender/source/EventCalendar.Logic/Controller.cs:232-233 | in a duplicate-free list every element occurs at most once |
| Sorting.InsertionPoint | EventCalenderException/EventCalender/source/EventCalendar.Logic/Controller.cs:233 | the position found follows every person ordering no later than the new one and precedes the first that orders after it |
| Sorting.Insert | EventCalenderException/EventCalender/source/EventCalendar.Logic/Controller.cs:233 | an ordered list stays ordered and gains exactly the new person |
| Sorting.SortPersons | EventCalenderException/EventCalender/source/EventCalendar.Logic/Controller.cs:233 | the result is ordered by `CompareTo` and is a permutation of the input |
| Logic.CreateKeepsConsistent | EventCalenderException/EventCalender/source/EventCalendar.Logic/Controller.cs:51-68 | storing an event with an unused title and no participants keeps the registry consistent |
| Logic.RegisterKeepsConsistent | EventCalenderException/EventCalender/source/EventCalendar.Logic/Controller.cs:135-143 | linking an absent person to a stored event with room keeps the registry consistent |
| Logic.UnregisterKeepsConsistent | EventCalenderException/EventCalender/source/EventCalendar.Logic/Controller.cs:197-203 | unlinking a participant from a stored event, on both sides, keeps the registry consistent |
| Logic.PermuteKeepsConsistent | EventCalenderException/EventCalender/source/EventCalendar.Logic/Controller.cs:232-233 | reordering a stored event's participant list keeps the registry consistent |
| Logic.Controller.constructor | EventCalenderException/EventCalender/source/EventCalendar.Logic/Controller.cs:15-18 | the registry starts empty and valid |
| Logic.Controller.CreateEvent | EventCalenderException/EventCalender/source/EventCalendar.Logic/Controller.cs:32-72 | a null invitor, an empty title, a date before now or a title in use is an argument error that changes nothing; otherwise one fresh event with the given fields is appended, capped exactly when the limit is not 0; the registry stays valid |
| Logic.Controller.UniqueTitle | EventCalenderException/EventCalender/source/EventCalendar.Logic/Controller.cs:74-86 | true exactly when no stored event has the title |
| Logic.Controller.GetEvent | EventCalenderException/EventCalender/source/EventCalendar.Logic/Controller.cs:93-108 | a blank title is an argument error; otherwise the result is null exactly when the title is unused, and otherwise a stored event with that title, the last one |
| Logic.Controller.RegisterPersonForEvent | EventCalenderException/EventCalender/source/EventCalendar.Logic/Controller.cs:117-172 | gives the full outcome in the source's order of checks: null arguments; a full capped event; a blank title; an unknown title; a different stored event under the title (false); a person already registered; otherwise success. On success both lists grow by exactly one entry, and on any other outcome nothing changes; the registry stays valid |
| Logic.Controller.Enroll | EventCalenderException/EventCalender/source/EventCalendar.Logic/Controller.cs:137-148 | the shared branch: the lookup outcome, then a refusal or the two appends |
| Logic.Controller.Confirm | EventCalenderException/EventCalender/source/EventCalendar.Logic/Controller.cs:137 | the title lookup followed by `Equals`: the lookup's errors, else true exactly when the event is stored |
| Logic.Controller.Link | EventCalenderException/EventCalender/source/EventCalendar.Logic/Controller.cs:139-147 | a person already registered is refused; otherwise both lists grow by one, consistently |
| Logic.Controller.UnregisterPersonForEvent | EventCalenderException/EventCalender/source/EventCalendar.Logic/Controller.cs:181-212 | null arguments are argument errors, then the lookup outcome, then a non-participant is an invalid operation; on success each side loses the other, no trace remains and the ghost maps record exactly the two new lists; otherwise nothing changes, ghost maps included; the registry stays valid |
| Logic.Controller.Unlink | EventCalenderException/EventCalender/source/EventCalendar.Logic/Controller.cs:199-207 | a non-participant is refused; otherwise each side loses the other, the ghost maps record exactly the two new lists and the registry stays valid |
| Logic.Controller.GetParticipatorsForEvent | EventCalenderException/EventCalender/source/EventCalendar.Logic/Controller.cs:221-237 | a null event is an argument error; otherwise the event's own list is sorted in place and returned, ordered by `CompareTo` and a permutation of the old list; the registry stays valid |
| Logic.Controller.Reorder | EventCalenderException/EventCalender/source/EventCalendar.Logic/Controller.cs:232-233 | storing a permutation as the event's list keeps the registry valid |
| Logic.Controller.GetEventsForPerson | EventCalenderException/EventCalender/source/EventCalendar.Logic/Controller.cs:244-266 | a null person is an argument error; otherwise the stored events the person takes part in, in registry order |
| Logic.Controller.CountEventsForPerson | EventCalenderException/EventCalender/source/EventCalendar.Logic/Controller.cs:273-288 | a null person is an argument error; otherwise the length of the person's list, which in a valid registry is the number of stored events the person takes part in |
| Logic.Controller.CountMatchesEvents | EventCalenderException/EventCalender/source/EventCalendar.Entities/Person.cs:20-26 | a person's own count equals the number of stored events listing them |
| Logic.RegisterUnregisterRoundTrip | EventCalenderException/EventCalender/source/EventCalendar.Logic/Controller.cs:117-212 | registering a person for a stored event and then unregistering them succeeds both times and restores both lists |

Behaviour the model keeps as the code has it:
- `AddEventToPerson` always returns false; the registry ignores the result.
- A date equal to the current time is accepted.
- A negative limit gives a capped event that no one can join; a limit of 0
  gives a plain event.
- A capped event that is full is refused before the title lookup.
- When the event's title is unknown, `GetEvent` returns null and calling
  `Equals` on it throws; the model reports a `NullReference` error.
- When a different stored event has the title, registration and
  unregistration return false.
- A title made only of white space can be stored. Registering for that event
  then fails with an argument error, because the lookup rejects the title.
- `GetEventsForPerson` is documented as sorted by date. The code returns the
  events in registry order, and the model follows the code.

## Left out

- `Person.MailAddress` and `Person.PhoneNumber` are not modelled: no core operation reads them.
- `DateTime` is an integer, and `DateTime.Now` is the parameter `now` of `Logic.Controller.CreateEvent`.
- Logic.Controller.CreateEvent: does not model the second `UniqueTitle` call at Controller.cs:57. It always succeeds after the first one, so it changes nothing.
- Ordering.CompareStrings: `String.CompareTo` is culture-sensitive. The model uses ordinal order on characters, which differs from it on order and on equality. The source can give 0 for different strings, such as canonically equivalent forms or strings differing only by ignorable characters like a soft hyphen. So in the source two persons with different last names can tie and the first name then decides, which the model never does. `Ordering.CompareKeys`' "zero exactly on equal keys" holds for the model's ordinal order only.
- Sorting.SortPersons: `List.Sort` is an unstable introsort. The model's insertion sort is stable, so for persons whose keys compare equal the order may differ. In the model that means the same names and count; in the source it also covers names its culture-sensitive comparison treats as equal.
- The public setters of `Event.Title`, `Invitor`, `DateTime`, `Participators`, `EventWithLimit.MaxParticipators` and `Person.PersonEvents` are not modelled. Only the methods above change an event's or a person's list; the other fields are fixed at construction.
- A null title is modelled as the empty string. Null arguments to the entity methods (`AddParticipatorToEvent(null)` and the like) are not modelled.
- Logic.Controller.RegisterPersonForEvent: requires the person to be known to this registry or registered for nothing. A person registered through another `Controller` is outside the model.
- Logic.Controller.GetParticipatorsForEvent: the source returns the event's own `List<Person>` object, so the caller's result is an alias and later registrations and unregistrations show through it. The model returns the list's value at the time of the call.
- Entities.Person.constructor: person names may be null in the source, since the constructor has no guard. `LastName.CompareTo` on a null name then throws, so `List.Sort` in `GetParticipatorsForEvent` throws when two such persons have equal counts. The model's names are strings and never null.
- Exception messages and exception types beyond the three error kinds are not modelled.
