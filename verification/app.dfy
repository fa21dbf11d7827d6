/** The `App` component's state and its handlers. Each handler's run of state setters
    is one atomic update; `Date.now()` is passed in as `now`, and a toast's timer
    firing is the explicit step `ExpireToast`. */
module AppModel {
  import opened Text
  import opened Events
  import opened ViewFilter
  import opened Toasts

  class App {
    var events: seq<Event>
    var toasts: seq<Toast>
    var formData: FormData
    var selectedEvent: Option<Event>
    var showCreateModal: bool
    var showEditModal: bool
    var showDeleteModal: bool
    var searchTerm: string
    var filterStatus: StatusFilter

    /** The initial state, with `seed` as the starting event list. */
    constructor (seed: seq<Event>)
      ensures events == seed && toasts == []
      ensures formData == EmptyForm && selectedEvent == None
      ensures !showCreateModal && !showEditModal && !showDeleteModal
      ensures searchTerm == "" && filterStatus == All
    {
      events := seed;
      toasts := [];
      formData := EmptyForm;
      selectedEvent := None;
      showCreateModal, showEditModal, showDeleteModal := false, false, false;
      searchTerm := "";
      filterStatus := All;
    }

    /** The events the list shows: stored events matching the search term and the
        status filter, and all of those. */
    function FilteredEvents(): (r: seq<Event>)
      reads this
      ensures forall i :: 0 <= i < |r| ==> r[i] in events && Matches(r[i], searchTerm, filterStatus)
      ensures forall i :: 0 <= i < |events| && Matches(events[i], searchTerm, filterStatus) ==> events[i] in r
    {
      FilterEvents(events, searchTerm, filterStatus)
    }

    /** `showToast`: appends one toast stamped with `now`; nothing else changes. */
    method ShowToast(message: string, kind: ToastKind, now: nat)
      modifies this`toasts
      ensures toasts == old(toasts) + [Toast(DecimalString(now), message, kind)]
    {
      toasts := toasts + [NewToast(message, kind, now)];
    }

    /** The toast timer firing (4000 milliseconds after the push that used `id`): every
        toast carrying `id` is dropped, the others stay in order; nothing else changes. */
    method ExpireToast(id: string)
      modifies this`toasts
      ensures toasts == RemoveToasts(old(toasts), id)
      ensures forall i :: 0 <= i < |toasts| ==> toasts[i].id != id
      ensures (forall i :: 0 <= i < |old(toasts)| ==> old(toasts)[i].id != id) ==> toasts == old(toasts)
    {
      if forall i :: 0 <= i < |toasts| ==> toasts[i].id != id {
        RemoveToastsAbsent(toasts, id);
      }
      toasts := RemoveToasts(toasts, id);
    }

    /** `resetForm`: installs the empty draft. */
    method ResetForm()
      modifies this`formData
      ensures formData == EmptyForm
    {
      formData := EmptyForm;
    }

    /** `handleCreate`: opens the create form on an empty draft; `selectedEvent` is
        left as it was. */
    method HandleCreate()
      modifies this`showCreateModal, this`formData
      ensures showCreateModal && formData == EmptyForm
    {
      showCreateModal := true;
      ResetForm();
    }

    /** `handleEdit`: selects `e`, copies its six editable fields into the draft and
        opens the edit form; the event list is untouched. */
    method HandleEdit(e: Event)
      modifies this`selectedEvent, this`formData, this`showEditModal
      ensures selectedEvent == Some(e) && showEditModal
      ensures formData.name == e.name && formData.date == e.date && formData.time == e.time
      ensures formData.location == e.location && formData.description == e.description
      ensures formData.status == e.status
    {
      selectedEvent := Some(e);
      formData := FormOf(e);
      showEditModal := true;
    }

    /** `handleDelete`: selects `e` and opens the delete confirmation. */
    method HandleDelete(e: Event)
      modifies this`selectedEvent, this`showDeleteModal
      ensures selectedEvent == Some(e) && showDeleteModal
    {
      selectedEvent := Some(e);
      showDeleteModal := true;
    }

    /** The close and cancel buttons of the create/edit form: both form flags go down
        and the draft is reset; `selectedEvent` is NOT cleared. */
    method CloseForm()
      modifies this`showCreateModal, this`showEditModal, this`formData
      ensures !showCreateModal && !showEditModal && formData == EmptyForm
    {
      showCreateModal := false;
      showEditModal := false;
      ResetForm();
    }

    /** The cancel button of the delete confirmation. */
    method CancelDelete()
      modifies this`showDeleteModal, this`selectedEvent
      ensures !showDeleteModal && selectedEvent == None
    {
      showDeleteModal := false;
      selectedEvent := None;
    }

    /** The six field inputs of the form: each overwrites one draft field. */
    method SetName(value: string)
      modifies this`formData
      ensures formData == old(formData).(name := value)
    {
      formData := formData.(name := value);
    }

    method SetDate(value: string)
      modifies this`formData
      ensures formData == old(formData).(date := value)
    {
      formData := formData.(date := value);
    }

    method SetTime(value: string)
      modifies this`formData
      ensures formData == old(formData).(time := value)
    {
      formData := formData.(time := value);
    }

    method SetLocation(value: string)
      modifies this`formData
      ensures formData == old(formData).(location := value)
    {
      formData := formData.(location := value);
    }

    method SetStatus(value: Status)
      modifies this`formData
      ensures formData == old(formData).(status := value)
    {
      formData := formData.(status := value);
    }

    method SetDescription(value: string)
      modifies this`formData
      ensures formData == old(formData).(description := value)
    {
      formData := formData.(description := value);
    }

    /** The search box and the status select. */
    method SetSearchTerm(value: string)
      modifies this`searchTerm
      ensures searchTerm == value
    {
      searchTerm := value;
    }

    method SetFilterStatus(value: StatusFilter)
      modifies this`filterStatus
      ensures filterStatus == value
    {
      filterStatus := value;
    }

    /** `handleSaveEvent`. `now` is the `Date.now()` of the record's id, `toastNow`
        that of the toast.
        - A draft missing a required field only appends an error toast.
        - With the edit form open and an event selected, every event carrying the
          selected id is replaced, in place, by the record built from the draft.
        - Otherwise the record is appended at the end and only the create flag goes down.
        - After a successful save the draft is empty, nothing is selected and one
          success toast has been appended. */
    method HandleSaveEvent(now: nat, toastNow: nat)
      modifies this`events, this`toasts, this`formData, this`selectedEvent
      modifies this`showCreateModal, this`showEditModal
      ensures !RequiredFieldsFilled(old(formData)) ==>
        && events == old(events)
        && toasts == old(toasts) + [Toast(DecimalString(toastNow), MissingFieldsMessage, Error)]
        && formData == old(formData) && selectedEvent == old(selectedEvent)
        && showCreateModal == old(showCreateModal) && showEditModal == old(showEditModal)
      ensures RequiredFieldsFilled(old(formData)) && old(showEditModal) && old(selectedEvent).Some? ==>
        && events == ReplaceById(old(events), old(selectedEvent).value.id,
                                 SavedEvent(old(formData), old(selectedEvent), now))
        && toasts == old(toasts) + [Toast(DecimalString(toastNow), UpdatedMessage, Success)]
        && !showEditModal && showCreateModal == old(showCreateModal)
      ensures RequiredFieldsFilled(old(formData)) && !(old(showEditModal) && old(selectedEvent).Some?) ==>
        && events == old(events) + [SavedEvent(old(formData), old(selectedEvent), now)]
        && toasts == old(toasts) + [Toast(DecimalString(toastNow), CreatedMessage, Success)]
        && !showCreateModal && showEditModal == old(showEditModal)
      ensures RequiredFieldsFilled(old(formData)) ==> formData == EmptyForm && selectedEvent == None
      ensures RequiredFieldsFilled(old(formData)) && old(showEditModal) && old(selectedEvent).Some? ==>
        forall i :: 0 <= i < |old(events)| && old(events)[i].id == old(selectedEvent).value.id ==>
          FormOf(events[i]) == old(formData) && events[i].attendees == old(selectedEvent).value.attendees
      ensures RequiredFieldsFilled(old(formData)) && old(selectedEvent).None? ==>
        && FormOf(events[|events| - 1]) == old(formData)
        && events[|events| - 1].id == DecimalString(now) && events[|events| - 1].attendees == 0
    {
      if !RequiredFieldsFilled(formData) {
        ShowToast(MissingFieldsMessage, Error, toastNow);
        return;
      }
      var eventData := SavedEvent(formData, selectedEvent, now);
      if showEditModal && selectedEvent.Some? {
        events := ReplaceById(events, selectedEvent.value.id, eventData);
        ShowToast(UpdatedMessage, Success, toastNow);
        showEditModal := false;
      } else {
        events := events + [eventData];
        ShowToast(CreatedMessage, Success, toastNow);
        showCreateModal := false;
      }
      ResetForm();
      selectedEvent := None;
    }

    /** `confirmDelete`: with an event selected, removes every event carrying its id
        (the rest keep their order), appends a success toast, closes the confirmation
        and clears the selection; with nothing selected, nothing changes. */
    method ConfirmDelete(toastNow: nat)
      modifies this`events, this`toasts, this`showDeleteModal, this`selectedEvent
      ensures old(selectedEvent).None? ==>
        && events == old(events) && toasts == old(toasts)
        && showDeleteModal == old(showDeleteModal) && selectedEvent == None
      ensures old(selectedEvent).Some? ==>
        && events == RemoveById(old(events), old(selectedEvent).value.id)
        && toasts == old(toasts) + [Toast(DecimalString(toastNow), DeletedMessage, Success)]
        && !showDeleteModal && selectedEvent == None
    {
      if selectedEvent.Some? {
        events := RemoveById(events, selectedEvent.value.id);
        ShowToast(DeletedMessage, Success, toastNow);
        showDeleteModal := false;
        selectedEvent := None;
      }
    }
  }

  /** Creating an event from a filled draft on a fresh component: one more event, at
      the end, with the timestamp id and no attendees, the earlier events unchanged,
      the form closed and a success toast queued. */
  method CreateScenario(seed: seq<Event>, name: string, date: string, time: string,
                        location: string, now: nat, toastNow: nat)
    returns (events: seq<Event>, toasts: seq<Toast>, createOpen: bool)
    requires name != "" && date != "" && time != "" && location != ""
    ensures |events| == |seed| + 1 && events[..|seed|] == seed
    ensures events[|seed|].name == name && events[|seed|].date == date
    ensures events[|seed|].time == time && events[|seed|].location == location
    ensures events[|seed|].id == DecimalString(now) && events[|seed|].attendees == 0
    ensures toasts == [Toast(DecimalString(toastNow), CreatedMessage, Success)]
    ensures !createOpen
  {
    var app := new App(seed);
    app.HandleCreate();
    app.SetName(name);
    app.SetDate(date);
    app.SetTime(time);
    app.SetLocation(location);
    app.HandleSaveEvent(now, toastNow);
    events, toasts, createOpen := app.events, app.toasts, app.showCreateModal;
  }

  /** Saving the empty draft: the list is unchanged, an error toast is queued and the
      create form stays open. */
  method EmptyDraftScenario(seed: seq<Event>, now: nat, toastNow: nat)
    returns (events: seq<Event>, toasts: seq<Toast>, createOpen: bool)
    ensures events == seed
    ensures toasts == [Toast(DecimalString(toastNow), MissingFieldsMessage, Error)]
    ensures createOpen
  {
    var app := new App(seed);
    app.HandleCreate();
    app.HandleSaveEvent(now, toastNow);
    events, toasts, createOpen := app.events, app.toasts, app.showCreateModal;
  }

  /** Editing stored event `x`, setting its status to 'completed' and saving: every event
      carrying `x`'s id becomes `x` with status 'completed' (and no banner), every other
      event is unchanged, the list keeps its length and the edit form is closed. */
  method EditStatusScenario(seed: seq<Event>, x: Event, now: nat, toastNow: nat)
    returns (events: seq<Event>, editOpen: bool)
    requires x.id != "" && x.name != "" && x.date != "" && x.time != "" && x.location != ""
    ensures |events| == |seed|
    ensures forall i :: 0 <= i < |seed| && seed[i].id == x.id ==>
              events[i] == x.(status := Completed, banner := None)
    ensures forall i :: 0 <= i < |seed| && seed[i].id != x.id ==> events[i] == seed[i]
    ensures !editOpen
  {
    var app := new App(seed);
    app.HandleEdit(x);
    app.SetStatus(Completed);
    app.HandleSaveEvent(now, toastNow);
    events, editOpen := app.events, app.showEditModal;
  }

  /** Deleting a stored event when ids are unique removes exactly one event; confirming
      again with nothing selected, or deleting the same event a second time, changes
      nothing. */
  method DeleteTwiceScenario(seed: seq<Event>, x: Event, toastNow: nat)
    returns (afterFirst: seq<Event>, afterSecond: seq<Event>, afterThird: seq<Event>)
    requires UniqueIds(seed) && x in seed
    ensures |afterFirst| == |seed| - 1 && !ContainsId(afterFirst, x.id)
    ensures afterSecond == afterFirst && afterThird == afterFirst
  {
    var app := new App(seed);
    app.HandleDelete(x);
    app.ConfirmDelete(toastNow);
    afterFirst := app.events;
    app.ConfirmDelete(toastNow);
    afterSecond := app.events;
    app.HandleDelete(x);
    app.ConfirmDelete(toastNow);
    afterThird := app.events;
    RemoveByIdUnique(seed, x.id);
    RemoveByIdTwice(seed, x.id);
  }

  /** Opening stored event `x` for editing, cancelling, then creating a new event reuses
      `x`'s id and attendee count, because cancelling the form keeps `selectedEvent`:
      the id is then carried twice. */
  method StaleSelectionScenario(seed: seq<Event>, x: Event, name: string, date: string,
                                time: string, location: string, now: nat, toastNow: nat)
    returns (events: seq<Event>)
    requires x in seed && x.id != ""
    requires name != "" && date != "" && time != "" && location != ""
    ensures |events| == |seed| + 1 && events[..|seed|] == seed
    ensures events[|seed|].id == x.id && events[|seed|].attendees == x.attendees
    ensures !UniqueIds(events) && CountId(events, x.id) >= 2
  {
    var app := new App(seed);
    app.HandleEdit(x);
    app.CloseForm();
    app.HandleCreate();
    app.SetName(name);
    app.SetDate(date);
    app.SetTime(time);
    app.SetLocation(location);
    app.HandleSaveEvent(now, toastNow);
    events := app.events;
    AppendTakenIdDuplicates(seed, events[|seed|]);
  }

  /** A toast pushed on a fresh component is gone once its timer fires. */
  method ToastExpiryScenario(seed: seq<Event>, message: string, kind: ToastKind, now: nat)
    returns (pushed: seq<Toast>, expired: seq<Toast>)
    ensures pushed == [Toast(DecimalString(now), message, kind)]
    ensures expired == []
  {
    var app := new App(seed);
    app.ShowToast(message, kind, now);
    pushed := app.toasts;
    app.ExpireToast(DecimalString(now));
    expired := app.toasts;
  }
}
