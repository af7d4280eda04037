/** Every event keeps the overlay session's invariant, so every state
    reachable from mounting satisfies it: the countdown stays in range,
    timers are pending only when they should be, and the countdown of an
    opening is in step with its auto-dismiss. */
module OverlayInvariant {
  import opened Wrappers
  import opened Overlay

  /** Setting showOverlay keeps the invariant: opening schedules both
      one-shot timers afresh, after any countdown left over has ended;
      closing cancels them. */
  lemma WithShowOverlayPreservesInv(s: State, v: bool)
    requires Inv(s)
    ensures Inv(WithShowOverlay(s, v))
    ensures v && !s.showOverlay ==>
              && WithShowOverlay(s, v).dismissAt == Some(s.now + OverlayTimeout)
              && WithShowOverlay(s, v).revealAt == Some(s.now + RevealDelay)
    ensures !v ==> WithShowOverlay(s, v).dismissAt.None? && WithShowOverlay(s, v).revealAt.None?
  {
  }

  lemma PressedPreservesInv(s: State, name: string)
    requires Inv(s)
    ensures Inv(Pressed(s, name))
  {
    var s' := s.(activeButton := Some(name));
    if name == "Raumplan" {
      WithShowOverlayPreservesInv(s'.(overlayContent := RaumplanUrl, overlayType := Iframe), true);
    } else if name == "Info" {
      WithShowOverlayPreservesInv(s'.(overlayContent := InfoUrl, overlayType := Iframe), true);
    } else if name == "Kontakt" {
      WithShowOverlayPreservesInv(s'.(overlayType := Contact), true);
    }
  }

  lemma ClickedOnPreservesInv(s: State, t: Target)
    requires Inv(s)
    ensures Inv(ClickedOn(s, t))
  {
    WithShowOverlayPreservesInv(s, false);
  }

  lemma FiredPreservesInv(s: State)
    requires Inv(s)
    ensures Inv(Fired(s))
    ensures s.now <= Fired(s).now
  {
  }

  lemma {:induction false} AdvancedToPreservesInv(s: State, t: nat)
    requires Inv(s) && s.now <= t
    ensures Inv(AdvancedTo(s, t)) && AdvancedTo(s, t).now == t
    decreases PendingOneShots(s), TickBudget(s)
  {
    var next := NextDue(s);
    if next.Some? && next.value.at <= t {
      FiredProgress(s);
      FiredPreservesInv(s);
      AdvancedToPreservesInv(Fired(s), t);
    }
  }

  lemma StepPreservesInv(s: State, e: Event)
    requires Inv(s)
    ensures Inv(Step(s, e)) && s.now <= Step(s, e).now
  {
    match e
    case Press(name) =>
      PressedPreservesInv(s, name);
      assert Step(s, e) == Pressed(s, name) && Pressed(s, name).now == s.now;
    case ClickOn(t) =>
      ClickedOnPreservesInv(s, t);
      assert Step(s, e) == ClickedOn(s, t) && ClickedOn(s, t).now == s.now;
    case FireNext =>
      FiredPreservesInv(s);
    case Wait(ms) =>
      AdvancedToPreservesInv(s, s.now + ms);
  }

  /** Whatever the user does and however time passes, the invariant holds;
      in particular the countdown never leaves 0..COUNTDOWN_START. */
  lemma {:induction false} RunPreservesInv(s: State, es: seq<Event>)
    requires Inv(s)
    ensures Inv(Run(s, es))
    ensures Run(s, es).countdown.Some? ==> 0 <= Run(s, es).countdown.value <= CountdownStart
    decreases |es|
  {
    if es != [] {
      StepPreservesInv(s, es[0]);
      RunPreservesInv(Step(s, es[0]), es[1..]);
    }
  }

  lemma ReachableStatesSatisfyInv(mountedAt: nat, es: seq<Event>)
    ensures Inv(Run(Mounted(mountedAt), es))
  {
    RunPreservesInv(Mounted(mountedAt), es);
  }
}
