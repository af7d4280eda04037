/** The overlay session of the welcome dashboard
    (components/dashboard-with-overlay.tsx), as a transition system on
    values. A `State` holds the component's React state, a millisecond
    clock and the deadlines of the three timers the effects keep pending;
    `Step` applies one event. The class in module Dashboard performs the
    same transitions by updating fields. */
module Overlay {
  import opened Wrappers

  /** OVERLAY_TIMEOUT: an opened overlay is hidden after this many ms. */
  const OverlayTimeout: nat := 20000
  /** COUNTDOWN_START: the first value of the countdown badge. */
  const CountdownStart: nat := 5
  /** The delay of the countdown tick: one second. */
  const TickInterval: nat := 1000

  /** `k` seconds in milliseconds: the unit in which the countdown-start
      delay is computed. */
  function Seconds(k: int): int { k * 1000 }
  /** The countdown-start timer's delay: the overlay timeout less
      COUNTDOWN_START seconds, so that the countdown ends with the overlay. */
  const RevealDelay: nat := OverlayTimeout - Seconds(CountdownStart)

  const RaumplanUrl := "https://mybseplapagefri.vercel.app/"
  const InfoUrl := "https://www.bs-elmshorn.de/"

  datatype Kind = Iframe | Contact

  /** The pending countdown tick: its deadline, and the countdown value
      its callback captured (it will set the countdown to `from - 1`). */
  datatype PendingTick = PendingTick(at: nat, from: int)

  datatype State = State(
    now: nat,
    activeButton: Option<string>,
    showOverlay: bool,
    overlayContent: string,
    overlayType: Kind,
    countdown: Option<int>,
    dismissAt: Option<nat>,   // the auto-dismiss timer (overlayTimer)
    revealAt: Option<nat>,    // the countdown-start timer (countdownTimer)
    tick: Option<PendingTick>)

  /** The state right after mounting: both effects have run once and,
      the overlay being hidden and the countdown null, scheduled nothing. */
  function Mounted(now: nat): State {
    State(now, None, false, "", Iframe, None, None, None, None)
  }

  /* ---------------- setState followed by the effects ---------------- */

  /** setShowOverlay(v) and the effect keyed on showOverlay: it re-runs only
      when the value changes; its cleanup cancels both one-shot timers and,
      when the overlay is now shown, it schedules them afresh. */
  function WithShowOverlay(s: State, v: bool): State {
    if v == s.showOverlay then s
    else s.(showOverlay := v,
            dismissAt := if v then Some(s.now + OverlayTimeout) else None,
            revealAt := if v then Some(s.now + RevealDelay) else None)
  }

  /** setCountdown(v) and the effect keyed on countdown: when the value
      changes, the pending tick is cancelled and, while the countdown is
      positive, a new one is scheduled one second ahead. */
  function WithCountdown(s: State, v: Option<int>): State {
    if v == s.countdown then s
    else s.(countdown := v,
            tick := if v.Some? && v.value > 0 then Some(PendingTick(s.now + TickInterval, v.value)) else None)
  }

  /* ---------------- user events ---------------- */

  /** The onClick handler of the button labelled `name`. */
  function Pressed(s: State, name: string): State {
    var s' := s.(activeButton := Some(name));
    if name == "Raumplan" then WithShowOverlay(s'.(overlayContent := RaumplanUrl, overlayType := Iframe), true)
    else if name == "Info" then WithShowOverlay(s'.(overlayContent := InfoUrl, overlayType := Iframe), true)
    else if name == "Kontakt" then WithShowOverlay(s'.(overlayType := Contact), true)
    else s'
  }

  /** The three clickable regions of the overlay, innermost first: the
      close button lies inside the body, the body inside the backdrop. */
  datatype Target = CloseButton | Body | Backdrop

  /** The elements a click on `t` bubbles through, innermost first. */
  function BubblePath(t: Target): seq<Target> {
    match t
    case CloseButton => [CloseButton, Body, Backdrop]
    case Body => [Body, Backdrop]
    case Backdrop => [Backdrop]
  }

  /** The body's handler calls stopPropagation. */
  predicate StopsPropagation(t: Target) { t == Body }

  /** The close button's and the backdrop's handlers call setShowOverlay(false). */
  predicate HidesOverlay(t: Target) { t == CloseButton || t == Backdrop }

  /** The elements of `path` whose handlers run: all of them up to and
      including the first one that stops propagation. */
  function Reached(path: seq<Target>): (r: seq<Target>)
    ensures |r| <= |path|
    ensures forall i :: 0 <= i < |r| ==> r[i] == path[i]
    ensures forall i :: 0 <= i < |r| - 1 ==> !StopsPropagation(r[i])
    ensures |r| < |path| ==> |r| > 0 && StopsPropagation(r[|r| - 1])
  {
    if path == [] then []
    else if StopsPropagation(path[0]) then [path[0]]
    else [path[0]] + Reached(path[1..])
  }

  /** Whether a click on `t` runs a handler that hides the overlay. */
  predicate ClickHides(t: Target) {
    exists h | h in Reached(BubblePath(t)) :: HidesOverlay(h)
  }

  /** A click on one of the overlay's regions. */
  function ClickedOn(s: State, t: Target): State {
    if ClickHides(t) then WithShowOverlay(s, false) else s
  }

  /* ---------------- timers ---------------- */

  datatype Timer = DismissTimer | RevealTimer | TickTimer
  datatype Due = Due(timer: Timer, at: nat)

  /** The deadline of timer `k`, if it is pending. */
  function Deadline(s: State, k: Timer): Option<nat> {
    match k
    case DismissTimer => s.dismissAt
    case RevealTimer => s.revealAt
    case TickTimer => if s.tick.Some? then Some(s.tick.value.at) else None
  }

  function DueOf(k: Timer, d: Option<nat>): Option<Due> {
    if d.Some? then Some(Due(k, d.value)) else None
  }

  /** The earlier of two pending timers; on a tie, the first. */
  function Earlier(a: Option<Due>, b: Option<Due>): Option<Due> {
    if a.None? then b
    else if b.None? then a
    else if b.value.at < a.value.at then b
    else a
  }

  /** The timer that fires next: the pending one with the earliest
      deadline, ties going to the one scheduled first (dismiss, then
      countdown-start, then tick). */
  function NextDue(s: State): (r: Option<Due>)
    ensures r.None? <==> s.dismissAt.None? && s.revealAt.None? && s.tick.None?
    ensures r.Some? ==> Deadline(s, r.value.timer) == Some(r.value.at)
    ensures r.Some? && s.dismissAt.Some? ==> r.value.at <= s.dismissAt.value
    ensures r.Some? && s.revealAt.Some? ==> r.value.at <= s.revealAt.value
    ensures r.Some? && s.tick.Some? ==> r.value.at <= s.tick.value.at
  {
    Earlier(Earlier(DueOf(DismissTimer, Deadline(s, DismissTimer)),
                    DueOf(RevealTimer, Deadline(s, RevealTimer))),
            DueOf(TickTimer, Deadline(s, TickTimer)))
  }

  /** Moves the clock to the next deadline and runs that timer's callback;
      with no timer pending, nothing happens. */
  function Fired(s: State): State {
    match NextDue(s)
    case None => s
    case Some(due) =>
      var s' := s.(now := due.at);
      match due.timer
      case DismissTimer => WithShowOverlay(s'.(dismissAt := None), false)
      case RevealTimer => WithCountdown(s'.(revealAt := None), Some(CountdownStart))
      case TickTimer => WithCountdown(s'.(tick := None), Some(s.tick.value.from - 1))
  }

  /** The number of pending one-shot timers. */
  function PendingOneShots(s: State): nat {
    (if s.dismissAt.Some? then 1 else 0) + (if s.revealAt.Some? then 1 else 0)
  }

  /** How many more times the tick can fire before it stops rescheduling. */
  function TickBudget(s: State): nat {
    match s.tick
    case None => 0
    case Some(p) => (if p.from > 0 then p.from else 0) + 1
  }

  /** Firing a timer makes progress: it removes a one-shot timer, or it
      leaves them alone and brings the tick closer to its end. */
  lemma FiredProgress(s: State)
    requires NextDue(s).Some?
    ensures PendingOneShots(Fired(s)) < PendingOneShots(s)
         || (PendingOneShots(Fired(s)) == PendingOneShots(s) && TickBudget(Fired(s)) < TickBudget(s))
  {
  }

  /** Lets time pass up to `t`: every timer due by then fires, in order,
      and the clock ends at `t`. */
  function AdvancedTo(s: State, t: nat): State
    decreases PendingOneShots(s), TickBudget(s)
  {
    var next := NextDue(s);
    if next.Some? && next.value.at <= t then
      FiredProgress(s);
      AdvancedTo(Fired(s), t)
    else
      s.(now := t)
  }

  /* ---------------- events ---------------- */

  datatype Event = Press(name: string) | ClickOn(target: Target) | FireNext | Wait(ms: nat)

  function Step(s: State, e: Event): State {
    match e
    case Press(name) => Pressed(s, name)
    case ClickOn(t) => ClickedOn(s, t)
    case FireNext => Fired(s)
    case Wait(ms) => AdvancedTo(s, s.now + ms)
  }

  function Run(s: State, es: seq<Event>): State
    decreases |es|
  {
    if es == [] then s else Run(Step(s, es[0]), es[1..])
  }

  /* ---------------- the invariant ---------------- */

  /** What holds of every state the component can reach. */
  ghost predicate Inv(s: State) {
    // the countdown stays within 0..COUNTDOWN_START
    && (s.countdown.Some? ==> 0 <= s.countdown.value <= CountdownStart)
    // the auto-dismiss timer is pending exactly while the overlay is shown
    && (s.showOverlay <==> s.dismissAt.Some?)
    && (s.dismissAt.Some? ==> s.now <= s.dismissAt.value)
    // countdown-start is due COUNTDOWN_START seconds before auto-dismiss
    && (s.revealAt.Some? ==> s.dismissAt.Some? && s.now <= s.revealAt.value
                             && s.revealAt.value + Seconds(CountdownStart) == s.dismissAt.value)
    // a tick is pending exactly while the countdown is positive, and its
    // callback captured the current value
    && (s.tick.Some? <==> s.countdown.Some? && s.countdown.value > 0)
    && (s.tick.Some? ==> s.tick.value.from == s.countdown.value
                         && s.now <= s.tick.value.at <= s.now + TickInterval)
    // a countdown left over from an earlier opening ends before this
    // opening's countdown starts
    && (s.tick.Some? && s.revealAt.Some? ==>
          s.tick.value.at + Seconds(s.tick.value.from - 1) < s.revealAt.value)
    // once this opening's countdown has started, its last tick is due
    // exactly when auto-dismiss is
    && (s.showOverlay && s.revealAt.None? ==>
          s.tick.Some? && s.tick.value.at + Seconds(s.tick.value.from - 1) == s.dismissAt.value)
  }
}
