/** `filteredEvents`: the events shown, recomputed from the event list, the search
    term and the status filter. */
module ViewFilter {
  import opened Lists
  import opened Text
  import opened Events

  /** `'all' | 'upcoming' | 'ongoing' | 'completed'` */
  datatype StatusFilter = All | Only(status: Status)

  /** The search test: the lower-cased name or location includes the lower-cased term.
      The empty term matches every event, a name or location equal to the term up to
      case matches, and a match needs a name or location at least as long as the term. */
  predicate MatchesSearch(e: Event, term: string): (ok: bool)
    ensures term == "" ==> ok
    ensures SameIgnoringCase(e.name, term) || SameIgnoringCase(e.location, term) ==> ok
    ensures ok ==> |term| <= |e.name| || |term| <= |e.location|
  {
    LowerEqualIffSameIgnoringCase(e.name, term);
    LowerEqualIffSameIgnoringCase(e.location, term);
    ContainsSelf(Lower(e.name));
    ContainsSelf(Lower(e.location));
    Contains(Lower(e.name), Lower(term)) || Contains(Lower(e.location), Lower(term))
  }

  /** The status test: 'all' passes everything, otherwise exactly the events with the
      chosen status pass. */
  predicate MatchesStatus(e: Event, filter: StatusFilter): (ok: bool)
    ensures filter.All? ==> ok
    ensures filter.Only? ==> (ok <==> e.status == filter.status)
  {
    filter.All? || e.status == filter.status
  }

  predicate Matches(e: Event, term: string, filter: StatusFilter)
  {
    MatchesSearch(e, term) && MatchesStatus(e, filter)
  }

  function MatchesView(term: string, filter: StatusFilter): Event -> bool
  {
    (e: Event) => Matches(e, term, filter)
  }

  /** `events.filter(...)`: every shown event is stored and matches both tests, and
      every stored event that matches both tests is shown. */
  function FilterEvents(events: seq<Event>, term: string, filter: StatusFilter): (r: seq<Event>)
    ensures forall i :: 0 <= i < |r| ==> r[i] in events && Matches(r[i], term, filter)
    ensures forall i :: 0 <= i < |events| && Matches(events[i], term, filter) ==> events[i] in r
  {
    Filter(events, MatchesView(term, filter))
  }

  /** The view lists its events in storage order, each as many times as it is stored. */
  lemma FilterEventsOrder(events: seq<Event>, term: string, filter: StatusFilter, e: Event)
    ensures IsSubsequence(FilterEvents(events, term, filter), events)
    ensures multiset(FilterEvents(events, term, filter))[e] ==
              if Matches(e, term, filter) then multiset(events)[e] else 0
  {
    FilterIsSubsequence(events, MatchesView(term, filter));
    FilterCounts(events, MatchesView(term, filter), e);
  }

  /** An empty search with 'all' shows every event, in storage order. */
  lemma FilterEventsShowAll(events: seq<Event>)
    ensures FilterEvents(events, "", All) == events
  {
    FilterAllPass(events, MatchesView("", All));
  }

  /** Filtering the view again with the same parameters changes nothing. */
  lemma FilterEventsIdempotent(events: seq<Event>, term: string, filter: StatusFilter)
    ensures FilterEvents(FilterEvents(events, term, filter), term, filter) == FilterEvents(events, term, filter)
  {
    FilterIdempotent(events, MatchesView(term, filter));
  }

  /** The search ignores the case of the term: searching for its lower-cased form
      shows the same events. */
  lemma {:induction false} FilterEventsIgnoresCase(events: seq<Event>, term: string, filter: StatusFilter)
    ensures FilterEvents(events, Lower(term), filter) == FilterEvents(events, term, filter)
    decreases |events|
  {
    LowerIdempotent(term);
    if events != [] {
      FilterEventsIgnoresCase(events[1..], term, filter);
    }
  }

  /** Search terms that differ only in ASCII case show the same events. */
  lemma {:induction false} FilterEventsCaseVariants(events: seq<Event>, t1: string, t2: string,
                                                    filter: StatusFilter)
    requires SameIgnoringCase(t1, t2)
    ensures FilterEvents(events, t1, filter) == FilterEvents(events, t2, filter)
    decreases |events|
  {
    LowerEqualIffSameIgnoringCase(t1, t2);
    if events != [] {
      FilterEventsCaseVariants(events[1..], t1, t2, filter);
    }
  }

  /** An event whose name equals the search term up to ASCII case is shown when the
      status filter admits it. */
  lemma NameMatchShown(events: seq<Event>, i: nat, term: string, filter: StatusFilter)
    requires i < |events| && MatchesStatus(events[i], filter)
    requires SameIgnoringCase(events[i].name, term)
    ensures events[i] in FilterEvents(events, term, filter)
  {
  }
}
