/** The success toast: shown or hidden, plus the number of one-shot hide
    timers that `showToast` has scheduled and that have not fired yet. Real
    time is not modelled; a timer firing is an explicit event. */
module Toast {

  datatype ToastState = ToastState(shown: bool, pendingHides: nat)

  /** The page starts with the toast hidden and no timer scheduled. */
  const Initial: ToastState := ToastState(false, 0)

  /** `showToast`: show the toast and schedule one more hide. */
  function Show(t: ToastState): ToastState {
    ToastState(true, t.pendingHides + 1)
  }

  /** `hideToast`: hide the toast; scheduled timers are not touched. */
  function Hide(t: ToastState): ToastState {
    t.(shown := false)
  }

  /** One scheduled hide timer fires: it is used up and calls `hideToast`. */
  function Fire(t: ToastState): ToastState
    requires t.pendingHides > 0
  {
    Hide(t.(pendingHides := t.pendingHides - 1))
  }

  /** Whenever the toast is shown, a hide is still scheduled: the toast never
      stays up for good. */
  ghost predicate Inv(t: ToastState) {
    t.shown ==> t.pendingHides > 0
  }

  /** The events that reach the toast: a successful submit, or a timer
      firing. */
  datatype Event = ShowEvent | FireEvent

  /** An event can happen in state `t`: only a scheduled timer can fire. */
  predicate Enabled(t: ToastState, e: Event) {
    e.FireEvent? ==> t.pendingHides > 0
  }

  function Step(t: ToastState, e: Event): ToastState
    requires Enabled(t, e)
  {
    match e
    case ShowEvent => Show(t)
    case FireEvent => Fire(t)
  }

  /** Runs `evs` from `t`, stopping at the first event that cannot happen. */
  function Run(t: ToastState, evs: seq<Event>): ToastState
    decreases |evs|
  {
    if evs == [] || !Enabled(t, evs[0]) then t else Run(Step(t, evs[0]), evs[1..])
  }

  function CountShows(evs: seq<Event>): nat {
    if evs == [] then 0 else (if evs[0].ShowEvent? then 1 else 0) + CountShows(evs[1..])
  }

  /** `n` timer firings in a row: the events `DrainHides` runs. */
  function Fires(n: nat): (evs: seq<Event>)
    ensures |evs| == n && forall i :: 0 <= i < n ==> evs[i] == FireEvent
  {
    if n == 0 then [] else [FireEvent] + Fires(n - 1)
  }

  /** `hideToast` always leaves the toast hidden, and hiding twice is hiding
      once. */
  lemma HideHidesIdempotently(t: ToastState)
    ensures !Hide(t).shown && Hide(t).pendingHides == t.pendingHides
    ensures Hide(Hide(t)) == Hide(t)
  {
  }

  /** Every `showToast` leaves the toast shown with one more hide scheduled. */
  lemma ShowSchedulesOneHide(t: ToastState)
    ensures Show(t).shown && Show(t).pendingHides == t.pendingHides + 1
  {
  }

  /** Every event preserves the invariant. */
  lemma StepPreservesInv(t: ToastState, e: Event)
    requires Inv(t) && Enabled(t, e)
    ensures Inv(Step(t, e))
  {
  }

  /** Any run from a state that satisfies the invariant keeps it, and never
      leaves more hides pending than were pending before plus one per show. */
  lemma {:induction false} RunKeepsInv(t: ToastState, evs: seq<Event>)
    requires Inv(t)
    ensures Inv(Run(t, evs))
    ensures Run(t, evs).pendingHides <= t.pendingHides + CountShows(evs)
    decreases |evs|
  {
    if evs != [] && Enabled(t, evs[0]) {
      StepPreservesInv(t, evs[0]);
      RunKeepsInv(Step(t, evs[0]), evs[1..]);
    }
  }

  /** With no further successful submit, letting every scheduled timer fire
      leaves the toast hidden with nothing left pending. */
  lemma {:induction false} DrainHides(t: ToastState)
    requires Inv(t)
    ensures Run(t, Fires(t.pendingHides)) == Initial
    decreases t.pendingHides
  {
    if t.pendingHides > 0 {
      var evs := Fires(t.pendingHides);
      assert evs[0] == FireEvent && evs[1..] == Fires(t.pendingHides - 1);
      DrainHides(Fire(t));
    }
  }

  /** Timers are never cancelled: after two shows, the first timer hides the
      toast the second show put up, while that show's own hide is still
      pending. */
  lemma EarlierTimerHidesLaterToast()
    ensures var t := Run(Initial, [ShowEvent, ShowEvent, FireEvent]);
      !t.shown && t.pendingHides == 1
  {
    var evs := [ShowEvent, ShowEvent, FireEvent];
    assert evs[1..] == [ShowEvent, FireEvent];
    assert evs[1..][1..] == [FireEvent];
    assert evs[1..][1..][1..] == [];
  }
}
