/** The event records of `src/App.tsx`, the form draft, and the pure list transforms
    the save and delete handlers apply to the event list. */
module Events {
  import opened Lists
  import opened Text

  datatype Option<T> = None | Some(value: T)

  /** `'upcoming' | 'ongoing' | 'completed'` */
  datatype Status = Upcoming | Ongoing | Completed

  /** An event as the component stores it. `attendees` is a JavaScript number the
      component never changes; `banner` is optional and never set by the component. */
  datatype Event = Event(
    id: string,
    name: string,
    date: string,
    time: string,
    location: string,
    description: string,
    status: Status,
    attendees: int,
    banner: Option<string>)

  /** The form draft: the six fields a user can edit. */
  datatype FormData = FormData(
    name: string,
    date: string,
    time: string,
    location: string,
    description: string,
    status: Status)

  /** The draft `resetForm` installs: every text field empty, status 'upcoming'. */
  const EmptyForm := FormData("", "", "", "", "", Upcoming)

  /** The save handler's guard: name, date, time and location are all non-empty
      (an empty string is falsy). Description and status are not checked. */
  predicate RequiredFieldsFilled(f: FormData): (ok: bool)
    ensures ok <==> "" !in [f.name, f.date, f.time, f.location]
  {
    f.name != "" && f.date != "" && f.time != "" && f.location != ""
  }

  /** The draft `handleEdit` fills in from an event; it passes the save guard exactly
      when the event's own name, date, time and location are non-empty. */
  function FormOf(e: Event): (f: FormData)
    ensures RequiredFieldsFilled(f) <==> e.name != "" && e.date != "" && e.time != "" && e.location != ""
  {
    FormData(e.name, e.date, e.time, e.location, e.description, e.status)
  }

  /** `selectedEvent?.id || Date.now().toString()`: the selected event's id unless
      there is no selected event or its id is the (falsy) empty string. */
  function SavedId(selected: Option<Event>, now: nat): (id: string)
    ensures id != ""
    ensures selected.None? ==> id == DecimalString(now)
    ensures selected.Some? && selected.value.id != "" ==> id == selected.value.id
  {
    if selected.Some? && selected.value.id != "" then selected.value.id else DecimalString(now)
  }

  /** `selectedEvent?.attendees || 0`: on integers the `|| 0` only turns 0 into 0. */
  function SavedAttendees(selected: Option<Event>): (n: int)
    ensures selected.None? ==> n == 0
    ensures selected.Some? ==> n == selected.value.attendees
  {
    if selected.Some? then selected.value.attendees else 0
  }

  /** The record the save handler builds: the draft spread, then `id` and `attendees`.
      Opening it for editing gives back the draft; its id is never empty; with nothing
      selected it gets the timestamp id and no attendees, otherwise the selected event's
      attendees and (when non-empty) its id. It has no banner. */
  function SavedEvent(f: FormData, selected: Option<Event>, now: nat): (e: Event)
    ensures FormOf(e) == f
    ensures e.id == SavedId(selected, now) && e.id != ""
    ensures e.attendees == SavedAttendees(selected)
    ensures selected.None? ==> e.id == DecimalString(now) && e.attendees == 0
    ensures e.banner.None?
  {
    Event(SavedId(selected, now), f.name, f.date, f.time, f.location, f.description,
          f.status, SavedAttendees(selected), None)
  }

  /** Opening an event for editing and saving the unchanged draft gives back the same
      event, except that its banner is dropped. */
  lemma EditRoundTrip(e: Event, now: nat)
    requires e.id != ""
    ensures SavedEvent(FormOf(e), Some(e), now) == e.(banner := None)
  {
  }

  /** Some stored event carries identifier `id`. */
  predicate ContainsId(s: seq<Event>, id: string)
  {
    exists i :: 0 <= i < |s| && s[i].id == id
  }

  /** No two positions hold events with the same identifier. */
  predicate UniqueIds(s: seq<Event>)
  {
    forall i, j :: 0 <= i < j < |s| ==> s[i].id != s[j].id
  }

  /** How many stored events carry identifier `id`. */
  function CountId(s: seq<Event>, id: string): nat
    decreases |s|
  {
    if s == [] then 0 else (if s[0].id == id then 1 else 0) + CountId(s[1..], id)
  }

  function IdIsNot(id: string): Event -> bool
  {
    (e: Event) => e.id != id
  }

  /** `prev.filter(event => event.id !== id)` of `confirmDelete`. */
  function RemoveById(s: seq<Event>, id: string): (r: seq<Event>)
    ensures forall i :: 0 <= i < |r| ==> r[i].id != id && r[i] in s
    ensures forall i :: 0 <= i < |s| && s[i].id != id ==> s[i] in r
  {
    Filter(s, IdIsNot(id))
  }

  function ReplaceWith(id: string, data: Event): Event -> Event
  {
    (e: Event) => if e.id == id then data else e
  }

  /** `prev.map(event => event.id === id ? data : event)` of the edit-mode save. */
  function ReplaceById(s: seq<Event>, id: string, data: Event): (r: seq<Event>)
    ensures |r| == |s|
    ensures forall i :: 0 <= i < |s| && s[i].id == id ==> r[i] == data
    ensures forall i :: 0 <= i < |s| && s[i].id != id ==> r[i] == s[i]
  {
    Map(s, ReplaceWith(id, data))
  }

  /** Deleting keeps the surviving events in their original order. */
  lemma RemoveByIdIsSubsequence(s: seq<Event>, id: string)
    ensures IsSubsequence(RemoveById(s, id), s)
  {
    FilterIsSubsequence(s, IdIsNot(id));
  }

  /** Deleting removes exactly the events carrying the identifier. */
  lemma {:induction false} RemoveByIdLength(s: seq<Event>, id: string)
    ensures |RemoveById(s, id)| == |s| - CountId(s, id)
    decreases |s|
  {
    if s != [] {
      RemoveByIdLength(s[1..], id);
    }
  }

  /** Deleting an identifier nobody carries changes nothing (it is not an error). */
  lemma RemoveByIdAbsent(s: seq<Event>, id: string)
    requires !ContainsId(s, id)
    ensures RemoveById(s, id) == s
  {
    FilterAllPass(s, IdIsNot(id));
  }

  /** A second delete of the same identifier changes nothing. */
  lemma RemoveByIdTwice(s: seq<Event>, id: string)
    ensures RemoveById(RemoveById(s, id), id) == RemoveById(s, id)
    ensures !ContainsId(RemoveById(s, id), id)
  {
    FilterIdempotent(s, IdIsNot(id));
  }

  /** With unique identifiers an identifier is carried by at most one event. */
  lemma {:induction false} CountIdUnique(s: seq<Event>, id: string)
    requires UniqueIds(s)
    ensures CountId(s, id) == if ContainsId(s, id) then 1 else 0
    decreases |s|
  {
    if s != [] {
      var t := s[1..];
      assert UniqueIds(t) by {
        forall i, j | 0 <= i < j < |t| ensures t[i].id != t[j].id {
          assert t[i] == s[i + 1] && t[j] == s[j + 1];
        }
      }
      CountIdUnique(t, id);
      if s[0].id == id {
        assert !ContainsId(t, id) by {
          forall i | 0 <= i < |t| ensures t[i].id != id {
            assert t[i] == s[i + 1];
          }
        }
      } else {
        if ContainsId(s, id) {
          var k :| 0 <= k < |s| && s[k].id == id;
          assert t[k - 1].id == id;
        }
        if ContainsId(t, id) {
          var k :| 0 <= k < |t| && t[k].id == id;
          assert s[k + 1].id == id;
        }
      }
    }
  }

  /** With unique identifiers, deleting a present identifier removes exactly one event. */
  lemma RemoveByIdUnique(s: seq<Event>, id: string)
    requires UniqueIds(s) && ContainsId(s, id)
    ensures |RemoveById(s, id)| == |s| - 1
  {
    RemoveByIdLength(s, id);
    CountIdUnique(s, id);
  }

  /** Deleting keeps identifiers unique. */
  lemma {:induction false} RemoveByIdKeepsUnique(s: seq<Event>, id: string)
    requires UniqueIds(s)
    ensures UniqueIds(RemoveById(s, id))
    decreases |s|
  {
    if s != [] {
      var t := s[1..];
      assert UniqueIds(t) by {
        forall i, j | 0 <= i < j < |t| ensures t[i].id != t[j].id {
          assert t[i] == s[i + 1] && t[j] == s[j + 1];
        }
      }
      RemoveByIdKeepsUnique(t, id);
      var rt := RemoveById(t, id);
      if s[0].id != id {
        assert RemoveById(s, id) == [s[0]] + rt;
        forall y | y in t ensures y.id != s[0].id {
          var k :| 0 <= k < |t| && t[k] == y;
          assert s[k + 1] == y;
        }
        forall i | 0 <= i < |rt| ensures rt[i].id != s[0].id {
          assert rt[i] in t;
        }
        ConsKeepsUnique(s[0], rt);
      }
    }
  }

  /** Putting an event in front of a list with unique identifiers, none equal to its
      own, keeps identifiers unique. */
  lemma ConsKeepsUnique(x: Event, t: seq<Event>)
    requires UniqueIds(t)
    requires forall i :: 0 <= i < |t| ==> t[i].id != x.id
    ensures UniqueIds([x] + t)
  {
    var s := [x] + t;
    forall i, j | 0 <= i < j < |s| ensures s[i].id != s[j].id {
      assert s[j] == t[j - 1];
      if i > 0 {
        assert s[i] == t[i - 1];
      }
    }
  }

  /** Replacing with a record that keeps the identifier leaves every identifier in place. */
  lemma ReplaceByIdKeepsIds(s: seq<Event>, id: string, data: Event)
    requires data.id == id
    ensures forall i :: 0 <= i < |s| ==> ReplaceById(s, id, data)[i].id == s[i].id
    ensures UniqueIds(s) ==> UniqueIds(ReplaceById(s, id, data))
  {
  }

  /** Replacing an identifier nobody carries changes nothing (it is not an error). */
  lemma ReplaceByIdAbsent(s: seq<Event>, id: string, data: Event)
    requires !ContainsId(s, id)
    ensures ReplaceById(s, id, data) == s
  {
  }

  /** Appending an event whose identifier is new keeps identifiers unique. */
  lemma AppendFreshKeepsUnique(s: seq<Event>, e: Event)
    requires UniqueIds(s) && !ContainsId(s, e.id)
    ensures UniqueIds(s + [e])
  {
  }

  /** Appending a record that reuses a stored event's identifier breaks uniqueness:
      the identifier is then carried at least twice. */
  lemma {:induction false} AppendTakenIdDuplicates(s: seq<Event>, e: Event)
    requires ContainsId(s, e.id)
    ensures !UniqueIds(s + [e])
    ensures CountId(s + [e], e.id) >= 2
  {
    var k :| 0 <= k < |s| && s[k].id == e.id;
    assert (s + [e])[k].id == (s + [e])[|s|].id;
    CountIdAppend(s, e, e.id);
    CountIdPositive(s, e.id, k);
  }

  lemma {:induction false} CountIdAppend(s: seq<Event>, e: Event, id: string)
    ensures CountId(s + [e], id) == CountId(s, id) + (if e.id == id then 1 else 0)
    decreases |s|
  {
    if s == [] {
      assert [e][1..] == [];
    } else {
      assert (s + [e])[1..] == s[1..] + [e];
      CountIdAppend(s[1..], e, id);
    }
  }

  lemma {:induction false} CountIdPositive(s: seq<Event>, id: string, k: nat)
    requires k < |s| && s[k].id == id
    ensures CountId(s, id) >= 1
    decreases k
  {
    if k > 0 {
      CountIdPositive(s[1..], id, k - 1);
    }
  }
}
