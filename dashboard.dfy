/** DashboardWithOverlayComponent (components/dashboard-with-overlay.tsx)
    as an object: its React state and the timers its effects keep pending
    are fields, and each event handler or timer callback is a method that
    updates them. Each method is proved to perform the transition that
    module Overlay defines on values, and to keep its invariant. */
module Dashboard {
  import opened Wrappers
  import opened Overlay
  import opened OverlayInvariant

  class DashboardWithOverlay {
    var now: nat
    var activeButton: Option<string>
    var showOverlay: bool
    var overlayContent: string
    var overlayType: Kind
    var countdown: Option<int>
    var dismissAt: Option<nat>
    var revealAt: Option<nat>
    var tick: Option<PendingTick>

    /** The component's state as a value. */
    function Snapshot(): State
      reads this
    {
      State(now, activeButton, showOverlay, overlayContent, overlayType, countdown, dismissAt, revealAt, tick)
    }

    ghost predicate Valid()
      reads this
    {
      Inv(Snapshot())
    }

    /** Mounting: the initial state of lines 7-12; both effects run once
        and schedule nothing. */
    constructor (mountedAt: nat)
      ensures Snapshot() == Mounted(mountedAt) && Valid()
    {
      now := mountedAt;
      activeButton := None;
      showOverlay := false;
      overlayContent := "";
      overlayType := Iframe;
      countdown := None;
      dismissAt, revealAt, tick := None, None, None;
    }

    /** setShowOverlay and the effect keyed on showOverlay. */
    method SetShowOverlay(v: bool)
      modifies this
      ensures Snapshot() == WithShowOverlay(old(Snapshot()), v)
    {
      if v != showOverlay {
        showOverlay := v;
        // cleanup of the previous run: clearTimeout on both handles
        dismissAt, revealAt := None, None;
        if v {
          dismissAt := Some(now + OverlayTimeout);
          revealAt := Some(now + (OverlayTimeout - Seconds(CountdownStart)));
        }
      }
    }

    /** setCountdown and the effect keyed on countdown. */
    method SetCountdown(v: Option<int>)
      modifies this
      ensures Snapshot() == WithCountdown(old(Snapshot()), v)
    {
      if v != countdown {
        countdown := v;
        tick := None;
        if v.Some? && v.value > 0 {
          tick := Some(PendingTick(now + TickInterval, v.value));
        }
      }
    }

    /** The onClick handler of the button labelled `name`. */
    method Click(name: string)
      requires Valid()
      modifies this
      ensures Valid() && Snapshot() == Pressed(old(Snapshot()), name)
    {
      ghost var s0 := Snapshot();
      activeButton := Some(name);
      if name == "Raumplan" {
        overlayContent := RaumplanUrl;
        overlayType := Iframe;
        SetShowOverlay(true);
      } else if name == "Info" {
        overlayContent := InfoUrl;
        overlayType := Iframe;
        SetShowOverlay(true);
      } else if name == "Kontakt" {
        overlayType := Contact;
        SetShowOverlay(true);
      }
      PressedPreservesInv(s0, name);
    }

    /** A click on the close button, the overlay's body or its backdrop. */
    method ClickOverlay(target: Target)
      requires Valid()
      modifies this
      ensures Valid() && Snapshot() == ClickedOn(old(Snapshot()), target)
    {
      ghost var s0 := Snapshot();
      if ClickHides(target) {
        SetShowOverlay(false);
      }
      ClickedOnPreservesInv(s0, target);
    }

    /** The next pending timer fires: the clock moves to its deadline and
        its callback runs. */
    method FireNext()
      requires Valid()
      modifies this
      ensures Valid() && Snapshot() == Fired(old(Snapshot()))
    {
      ghost var s0 := Snapshot();
      var next := NextDue(Snapshot());
      if next.Some? {
        now := next.value.at;
        match next.value.timer
        case DismissTimer =>
          dismissAt := None;
          SetShowOverlay(false);
        case RevealTimer =>
          revealAt := None;
          SetCountdown(Some(CountdownStart));
        case TickTimer =>
          var captured := tick.value.from;
          tick := None;
          SetCountdown(Some(captured - 1));
      }
      FiredPreservesInv(s0);
    }

    /** Lets `ms` milliseconds pass: the timers due by then fire in order. */
    method Advance(ms: nat)
      requires Valid()
      modifies this
      ensures Valid() && Snapshot() == AdvancedTo(old(Snapshot()), old(now) + ms)
    {
      ghost var s0 := Snapshot();
      var target := now + ms;
      var next := NextDue(Snapshot());
      while next.Some? && next.value.at <= target
        invariant Valid()
        invariant next == NextDue(Snapshot())
        invariant AdvancedTo(Snapshot(), target) == AdvancedTo(s0, target)
        decreases PendingOneShots(Snapshot()), TickBudget(Snapshot())
      {
        FiredProgress(Snapshot());
        FireNext();
        next := NextDue(Snapshot());
      }
      now := target;
      AdvancedToPreservesInv(s0, target);
    }
  }
}
