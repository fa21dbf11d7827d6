/** The toast list: `showToast` appends a notification whose id is the current
    timestamp, and its timer later drops every toast carrying that id. */
module Toasts {
  import opened Lists
  import opened Text

  /** `'success' | 'error' | 'info'` */
  datatype ToastKind = Success | Error | Info

  datatype Toast = Toast(id: string, message: string, kind: ToastKind)

  const MissingFieldsMessage := "Please fill in all required fields"
  const UpdatedMessage := "Event updated successfully!"
  const CreatedMessage := "Event created successfully!"
  const DeletedMessage := "Event deleted successfully!"

  /** The toast `showToast(message, kind)` creates at time `now`: its id is a
      non-empty digit string that reads back as `now`. */
  function NewToast(message: string, kind: ToastKind, now: nat): (t: Toast)
    ensures t.message == message && t.kind == kind
    ensures t.id != "" && forall i :: 0 <= i < |t.id| ==> IsDigit(t.id[i])
    ensures ParseDecimal(t.id) == now
  {
    DecimalRoundTrip(now);
    Toast(DecimalString(now), message, kind)
  }

  function ToastIdIsNot(id: string): Toast -> bool
  {
    (t: Toast) => t.id != id
  }

  /** The timer's `prev.filter(toast => toast.id !== id)`. */
  function RemoveToasts(toasts: seq<Toast>, id: string): (r: seq<Toast>)
    ensures forall i :: 0 <= i < |r| ==> r[i].id != id && r[i] in toasts
    ensures forall i :: 0 <= i < |toasts| && toasts[i].id != id ==> toasts[i] in r
  {
    Filter(toasts, ToastIdIsNot(id))
  }

  /** Expiry keeps the other toasts in their order and every copy of them. */
  lemma RemoveToastsKeepsOthers(toasts: seq<Toast>, id: string, t: Toast)
    ensures IsSubsequence(RemoveToasts(toasts, id), toasts)
    ensures multiset(RemoveToasts(toasts, id))[t] == if t.id != id then multiset(toasts)[t] else 0
  {
    FilterIsSubsequence(toasts, ToastIdIsNot(id));
    FilterCounts(toasts, ToastIdIsNot(id), t);
  }

  /** Expiring an id that no toast carries changes nothing. */
  lemma RemoveToastsAbsent(toasts: seq<Toast>, id: string)
    requires forall i :: 0 <= i < |toasts| ==> toasts[i].id != id
    ensures RemoveToasts(toasts, id) == toasts
  {
    FilterAllPass(toasts, ToastIdIsNot(id));
  }

  /** Pushing a toast whose id is new and then expiring it restores the list. */
  lemma PushThenExpire(toasts: seq<Toast>, t: Toast)
    requires forall i :: 0 <= i < |toasts| ==> toasts[i].id != t.id
    ensures RemoveToasts(toasts + [t], t.id) == toasts
  {
    FilterAppend(toasts, t, ToastIdIsNot(t.id));
    RemoveToastsAbsent(toasts, t.id);
  }

  /** Two toasts pushed in the same millisecond share an id, so the first timer to
      fire drops both of them. */
  lemma SameMillisecondToastsExpireTogether(toasts: seq<Toast>, m1: string, k1: ToastKind,
                                            m2: string, k2: ToastKind, now: nat)
    ensures var pushed := toasts + [NewToast(m1, k1, now)] + [NewToast(m2, k2, now)];
            NewToast(m1, k1, now) !in RemoveToasts(pushed, DecimalString(now)) &&
            NewToast(m2, k2, now) !in RemoveToasts(pushed, DecimalString(now))
  {
  }

  /** Toasts pushed at different times have different ids, so expiring one keeps the other. */
  lemma DistinctTimesExpireSeparately(toasts: seq<Toast>, m1: string, k1: ToastKind,
                                      m2: string, k2: ToastKind, t1: nat, t2: nat)
    requires t1 != t2
    ensures var pushed := toasts + [NewToast(m1, k1, t1)] + [NewToast(m2, k2, t2)];
            NewToast(m2, k2, t2) in RemoveToasts(pushed, DecimalString(t1))
  {
    DecimalStringInjective(t1, t2);
    var pushed := toasts + [NewToast(m1, k1, t1)] + [NewToast(m2, k2, t2)];
    assert pushed[|pushed| - 1] == NewToast(m2, k2, t2);
  }
}
