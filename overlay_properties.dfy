/** What the overlay session promises: what each button and each click
    region does, how the two effects schedule and cancel their timers, and
    how an undisturbed opening counts down and closes. */
module OverlayProperties {
  import opened Wrappers
  import opened Overlay
  import opened OverlayInvariant

  predicate IsOverlayButton(name: string) {
    name == "Raumplan" || name == "Info" || name == "Kontakt"
  }

  /* ---------------- buttons ---------------- */

  /** Raumplan and Info show their page in the iframe, Kontakt shows the
      contact card and keeps the last page, any other name only marks the
      button active. No button touches the countdown or its tick. */
  lemma PressedEffects(s: State, name: string)
    ensures var r := Pressed(s, name);
      && r.activeButton == Some(name)
      && (name == "Raumplan" ==> r.showOverlay && r.overlayType == Iframe && r.overlayContent == RaumplanUrl)
      && (name == "Info" ==> r.showOverlay && r.overlayType == Iframe && r.overlayContent == InfoUrl)
      && (name == "Kontakt" ==> r.showOverlay && r.overlayType == Contact && r.overlayContent == s.overlayContent)
      && (!IsOverlayButton(name) ==> r == s.(activeButton := Some(name)))
      && r.now == s.now && r.countdown == s.countdown && r.tick == s.tick
  {
  }

  /** Opening a hidden overlay schedules auto-dismiss at now + 20000 and
      countdown-start at now + 15000; pressing a button while it is
      already shown leaves both timers as they were. */
  lemma PressedSchedulesOnlyOnOpening(s: State, name: string)
    requires IsOverlayButton(name)
    ensures var r := Pressed(s, name);
      && (!s.showOverlay ==> r.dismissAt == Some(s.now + OverlayTimeout) && r.revealAt == Some(s.now + RevealDelay))
      && (s.showOverlay ==> r.dismissAt == s.dismissAt && r.revealAt == s.revealAt)
  {
  }

  /* ---------------- the overlay's click regions ---------------- */

  /** The backdrop's handler runs for a click on the backdrop and for
      nothing else: the body stops every click inside it. */
  lemma BackdropHandlerRunsOnlyForBackdrop(t: Target)
    ensures Backdrop in Reached(BubblePath(t)) <==> t == Backdrop
    ensures Body in Reached(BubblePath(t)) <==> t != Backdrop
  {
    match t
    case CloseButton =>
      assert Reached(BubblePath(t)) == [CloseButton, Body];
    case Body =>
      assert Reached(BubblePath(t)) == [Body];
    case Backdrop =>
  }

  /** The close button and the backdrop hide the overlay and cancel its two
      timers; nothing else changes: not the countdown, which keeps
      ticking, nor the content, the kind or the active button. */
  lemma CloseChangesOnlyVisibility(s: State, t: Target)
    requires Inv(s) && t != Body
    ensures ClickedOn(s, t) == s.(showOverlay := false, dismissAt := None, revealAt := None)
  {
    BackdropHandlerRunsOnlyForBackdrop(t);
    assert HidesOverlay(t) && t in Reached(BubblePath(t));
  }

  /** A click on the overlay's body changes nothing. */
  lemma BodyClickChangesNothing(s: State)
    ensures ClickedOn(s, Body) == s
  {
    assert Reached(BubblePath(Body)) == [Body];
  }

  /* ---------------- the countdown tick ---------------- */

  /** The tick fires only while the countdown is set and positive, and it
      lowers it by exactly one. */
  lemma TickDecrementsByOne(s: State)
    requires Inv(s) && NextDue(s).Some? && NextDue(s).value.timer == TickTimer
    ensures s.countdown.Some? && s.countdown.value > 0
    ensures Fired(s).countdown == Some(s.countdown.value - 1)
    ensures Fired(s).showOverlay == s.showOverlay && Fired(s).dismissAt == s.dismissAt
  {
  }

  lemma {:induction false} CountdownStaysSetWhileWaiting(s: State, t: nat)
    requires s.countdown.Some?
    ensures AdvancedTo(s, t).countdown.Some?
    decreases PendingOneShots(s), TickBudget(s)
  {
    var next := NextDue(s);
    if next.Some? && next.value.at <= t {
      FiredProgress(s);
      CountdownStaysSetWhileWaiting(Fired(s), t);
    }
  }

  /** Once the countdown has a value it never becomes null again, so the
      badge is rendered on every later opening. */
  lemma {:induction false} CountdownNeverCleared(s: State, es: seq<Event>)
    requires s.countdown.Some?
    ensures Run(s, es).countdown.Some?
    decreases |es|
  {
    if es != [] {
      match es[0] {
        case Wait(ms) => CountdownStaysSetWhileWaiting(s, s.now + ms);
        case _ =>
      }
      CountdownNeverCleared(Step(s, es[0]), es[1..]);
    }
  }

  /* ---------------- waiting ---------------- */

  lemma AdvanceStops(s: State, t: nat)
    requires NextDue(s).None? || NextDue(s).value.at > t
    ensures AdvancedTo(s, t) == s.(now := t)
  {
  }

  lemma AdvanceFires(s: State, t: nat)
    requires NextDue(s).Some? && NextDue(s).value.at <= t
    ensures AdvancedTo(s, t) == AdvancedTo(Fired(s), t)
  {
  }

  /** Waiting until t1 and then until t2 is waiting until t2. */
  lemma {:induction false} AdvanceSplit(s: State, t1: nat, t2: nat)
    requires t1 <= t2
    ensures AdvancedTo(AdvancedTo(s, t1), t2) == AdvancedTo(s, t2)
    decreases PendingOneShots(s), TickBudget(s)
  {
    var next := NextDue(s);
    if next.Some? && next.value.at <= t1 {
      FiredProgress(s);
      AdvanceSplit(Fired(s), t1, t2);
    } else {
      var s1 := s.(now := t1);
      assert NextDue(s1) == next;
      if next.Some? && next.value.at <= t2 {
        assert Fired(s1) == Fired(s);
      }
    }
  }

  /** Until its deadline, the auto-dismiss timer stays pending and the
      overlay stays shown. */
  lemma {:induction false} ShownUntilDeadline(s: State, t: nat)
    requires Inv(s) && s.dismissAt.Some? && s.now <= t < s.dismissAt.value
    ensures AdvancedTo(s, t).showOverlay && AdvancedTo(s, t).dismissAt == s.dismissAt
    decreases PendingOneShots(s), TickBudget(s)
  {
    var next := NextDue(s);
    if next.Some? && next.value.at <= t {
      FiredProgress(s);
      FiredPreservesInv(s);
      ShownUntilDeadline(Fired(s), t);
    }
  }

  /** An opening's countdown-start fires on time and sets the countdown to
      COUNTDOWN_START: whatever was left of an earlier countdown has run
      out by then. */
  lemma {:induction false} CountdownStartsOnTime(s: State, r: nat)
    requires Inv(s) && s.revealAt == Some(r)
    ensures AdvancedTo(s, r) == s.(now := r, revealAt := None, countdown := Some(CountdownStart),
                                    tick := Some(PendingTick(r + TickInterval, CountdownStart)))
    decreases TickBudget(s)
  {
    if s.tick.Some? {
      assert NextDue(s) == Some(Due(TickTimer, s.tick.value.at));
      FiredPreservesInv(s);
      AdvanceFires(s, r);
      CountdownStartsOnTime(Fired(s), r);
    } else {
      assert NextDue(s) == Some(Due(RevealTimer, r));
      AdvanceFires(s, r);
      AdvanceStops(Fired(s), r);
    }
  }

  /** The countdown of the shown overlay is running: it shows m > 0, the
      tick that captured m is due at t, and auto-dismiss is due with the
      countdown's last tick, m - 1 seconds after t. */
  predicate CountingDown(x: State, t: nat, m: int) {
    && x.showOverlay && x.revealAt.None?
    && x.countdown == Some(m) && 0 < m
    && x.tick == Some(PendingTick(t, m))
    && x.dismissAt == Some(t + Seconds(m - 1))
    && x.now <= t
  }

  /** One second of the countdown while it is above 1: the pending tick
      lowers it and schedules the next tick, one second later. */
  lemma CountdownSecond(x: State, t: nat, m: int)
    requires CountingDown(x, t, m) && m > 1
    ensures AdvancedTo(x, t) == x.(now := t, countdown := Some(m - 1),
                                   tick := Some(PendingTick(t + TickInterval, m - 1)))
  {
    assert NextDue(x) == Some(Due(TickTimer, t));
    AdvanceFires(x, t);
    AdvanceStops(Fired(x), t);
  }

  /** The last second of the countdown: when it shows 1, auto-dismiss (due
      at the same instant and scheduled first) hides the overlay, then the
      tick sets the countdown to 0 and schedules nothing. */
  lemma LastCountdownSecond(x: State, t: nat)
    requires CountingDown(x, t, 1)
    ensures AdvancedTo(x, t) == x.(now := t, showOverlay := false, dismissAt := None,
                                   countdown := Some(0), tick := None)
  {
    assert NextDue(x) == Some(Due(DismissTimer, t));
    var y := Fired(x);
    AdvanceFires(x, t);
    assert NextDue(y) == Some(Due(TickTimer, t));
    AdvanceFires(y, t);
    AdvanceStops(Fired(y), t);
  }

  /** From the moment the countdown of the shown overlay was set to n, k
      seconds later it shows n - k; after n seconds it is 0 and the
      overlay is hidden, both at the same instant. */
  lemma {:induction false} CountdownRunsDown(s: State, n: int, k: nat)
    requires CountingDown(s, s.now + TickInterval, n) && k <= n
    ensures var u := AdvancedTo(s, s.now + Seconds(k));
            if k < n then
              u == s.(now := s.now + Seconds(k), countdown := Some(n - k),
                      tick := Some(PendingTick(s.now + Seconds(k + 1), n - k)))
            else
              u == s.(now := s.now + Seconds(k), showOverlay := false, dismissAt := None,
                      countdown := Some(0), tick := None)
  {
    if k == 0 {
      AdvanceStops(s, s.now);
    } else {
      var t0 := s.now + Seconds(k - 1);
      var t := s.now + Seconds(k);
      assert t == t0 + TickInterval && t + TickInterval == s.now + Seconds(k + 1);
      var x := s.(now := t0, countdown := Some(n - k + 1), tick := Some(PendingTick(t, n - k + 1)));
      assert AdvancedTo(s, t0) == x by { CountdownRunsDown(s, n, k - 1); }
      assert AdvancedTo(s, t) == AdvancedTo(x, t) by { AdvanceSplit(s, t0, t); }
      assert CountingDown(x, t, n - k + 1);
      if k < n {
        CountdownSecond(x, t, n - k + 1);
      } else {
        LastCountdownSecond(x, t);
      }
    }
  }

  /** An overlay just opened and left alone shows the countdown
      5, 4, 3, 2, 1 at 15000, 16000, ..., 19000 ms after opening; at
      20000 ms the countdown reaches 0 at the same instant auto-dismiss
      hides the overlay, and no timer is left pending. */
  lemma UndisturbedCountdown(s: State, i: nat)
    requires Inv(s) && s.revealAt == Some(s.now + RevealDelay)
    requires i <= CountdownStart
    ensures var u := AdvancedTo(s, s.now + RevealDelay + Seconds(i));
      && u.countdown == Some(CountdownStart - i)
      && u.showOverlay == (i < CountdownStart)
      && u.activeButton == s.activeButton && u.overlayType == s.overlayType
      && u.overlayContent == s.overlayContent
      && (i == CountdownStart ==> u.dismissAt.None? && u.revealAt.None? && u.tick.None?)
  {
    var r := s.now + RevealDelay;
    var w := s.(now := r, revealAt := None, countdown := Some(CountdownStart),
                tick := Some(PendingTick(r + TickInterval, CountdownStart)));
    assert AdvancedTo(s, r) == w by { CountdownStartsOnTime(s, r); }
    assert AdvancedTo(s, r + Seconds(i)) == AdvancedTo(w, r + Seconds(i)) by {
      AdvanceSplit(s, r, r + Seconds(i));
    }
    assert CountingDown(w, w.now + TickInterval, CountdownStart);
    CountdownRunsDown(w, CountdownStart, i);
  }

  /** An overlay just opened and left alone is shown until 20000 ms have
      passed and hidden from then on: auto-dismiss happens exactly once. */
  lemma AutoDismissedOnce(s: State, t: nat)
    requires Inv(s) && s.revealAt == Some(s.now + RevealDelay)
    requires s.now <= t
    ensures AdvancedTo(s, t).showOverlay <==> t < s.now + OverlayTimeout
    ensures s.now + OverlayTimeout <= t ==> AdvancedTo(s, t).countdown == Some(0)
  {
    var d := s.now + OverlayTimeout;
    if t < d {
      ShownUntilDeadline(s, t);
    } else {
      UndisturbedCountdown(s, CountdownStart);
      AdvanceSplit(s, d, t);
      AdvanceStops(AdvancedTo(s, d), t);
    }
  }

  /** The same, stated from the button press that opens the overlay. */
  lemma PressThenWait(s: State, name: string, i: nat)
    requires Inv(s) && !s.showOverlay && IsOverlayButton(name)
    requires i <= CountdownStart
    ensures var u := AdvancedTo(Pressed(s, name), s.now + RevealDelay + Seconds(i));
      && u.countdown == Some(CountdownStart - i) && u.showOverlay == (i < CountdownStart)
      && u.activeButton == Some(name)
      && u.overlayType == Pressed(s, name).overlayType
      && u.overlayContent == Pressed(s, name).overlayContent
      && (i == CountdownStart ==> u.dismissAt.None? && u.revealAt.None? && u.tick.None?)
  {
    var shown := Pressed(s, name);
    PressedPreservesInv(s, name);
    PressedSchedulesOnlyOnOpening(s, name);
    assert shown.now == s.now && shown.revealAt == Some(s.now + RevealDelay);
    UndisturbedCountdown(shown, i);
  }

  /** Because nothing resets the countdown, an overlay opened again after
      an auto-dismiss shows the badge with 0 from the start. */
  lemma ReopenShowsZeroBadge(s: State, name: string)
    requires Inv(s) && s.revealAt == Some(s.now + RevealDelay) && IsOverlayButton(name)
    ensures var u := Pressed(AdvancedTo(s, s.now + OverlayTimeout), name);
      u.showOverlay && u.countdown == Some(0) && u.tick.None?
  {
    UndisturbedCountdown(s, CountdownStart);
  }
}
