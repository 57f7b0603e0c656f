/**
  Properties of the movie-detail state machine: the timeline it follows when
  left alone, what each button does, and what holds of every state reachable
  from mounting the screen.
 */
module MovieProperties {
  import opened Wrappers
  import opened MovieState
  import opened MovieRender
  import opened MovieStep

  /**
    Reference timeline, independent of the timer machinery: the view shown at
    time `now` when view `v` was entered at `t0` and nothing was pressed since.
   */
  function ScheduledView(v: View, t0: int, now: int): View
  {
    match v
    case Syncing =>
      if now < t0 + SyncDelayMs then Syncing
      else if now < t0 + SyncDelayMs + CompleteDelayMs then Complete
      else Playing
    case Complete =>
      if now < t0 + CompleteDelayMs then Complete else Playing
    case _ => v
  }

  /** The time at which the view `ScheduledView(v, t0, now)` was entered. */
  function ScheduledEntry(v: View, t0: int, now: int): int
  {
    match v
    case Syncing =>
      if now < t0 + SyncDelayMs then t0
      else if now < t0 + SyncDelayMs + CompleteDelayMs then t0 + SyncDelayMs
      else t0 + SyncDelayMs + CompleteDelayMs
    case Complete =>
      if now < t0 + CompleteDelayMs then t0 else t0 + CompleteDelayMs
    case _ => t0
  }

  /**
    A tick follows the reference timeline exactly: the view and its entry time
    are the scheduled ones, the pending timer is the one that view arms, and
    nothing but the clock changes otherwise.
   */
  lemma {:induction false} TickFollowsSchedule(s: State, now: int)
    requires Inv(s) && s.clock <= now
    ensures var v := ScheduledView(s.view, s.enteredAt, now);
            var t := ScheduledEntry(s.view, s.enteredAt, now);
            Step(s, Tick(now)) == s.(view := v, enteredAt := t, pending := Arm(v, t), clock := now)
  {
    assert Step(s, Tick(now)) == Advance(s, now);
    var e := s.enteredAt;
    match s.view
    case Selection =>
    case Playing =>
    case Complete =>
      if e + CompleteDelayMs <= now {
        var s1 := Fire(s);
        assert s1 == s.(view := Playing, pending := None, enteredAt := e + CompleteDelayMs);
        assert Advance(s, now) == Advance(s1, now);
      }
    case Syncing =>
      if e + SyncDelayMs <= now {
        var s1 := Fire(s);
        assert s1 == s.(view := Complete, enteredAt := e + SyncDelayMs,
                        pending := Some(Timer(e + SyncDelayMs + CompleteDelayMs, Playing)));
        assert Advance(s, now) == Advance(s1, now);
        if e + SyncDelayMs + CompleteDelayMs <= now {
          var s2 := Fire(s1);
          assert s2 == s.(view := Playing, pending := None, enteredAt := e + SyncDelayMs + CompleteDelayMs);
          assert Advance(s1, now) == Advance(s2, now);
        }
      }
  }

  /** Left alone, `syncing` becomes `complete` exactly when the clock reaches entry time + 5000 ms. */
  lemma SyncingCompletesOnTime(s: State, now: int)
    requires Inv(s) && s.view == Syncing && s.clock <= now
    ensures var r := Step(s, Tick(now));
            && (r.view == Syncing <==> now < s.enteredAt + SyncDelayMs)
            && (r.view == Complete <==> s.enteredAt + SyncDelayMs <= now < s.enteredAt + SyncDelayMs + CompleteDelayMs)
            && (r.view == Complete ==> r.enteredAt == s.enteredAt + SyncDelayMs)
            && (r.view == Playing <==> s.enteredAt + SyncDelayMs + CompleteDelayMs <= now)
  {
    TickFollowsSchedule(s, now);
  }

  /** Left alone, `complete` becomes `playing` exactly when the clock reaches entry time + 2000 ms. */
  lemma CompletePlaysOnTime(s: State, now: int)
    requires Inv(s) && s.view == Complete && s.clock <= now
    ensures var r := Step(s, Tick(now));
            && (r.view == Complete <==> now < s.enteredAt + CompleteDelayMs)
            && (r.view == Playing <==> s.enteredAt + CompleteDelayMs <= now)
            && (r.view == Playing ==> r.enteredAt == s.enteredAt + CompleteDelayMs && r.pending == None)
  {
    TickFollowsSchedule(s, now);
  }

  /** `selection` and `playing` arm no timer, so the clock alone never moves them. */
  lemma NoTimerInSelectionOrPlaying(s: State, now: int)
    requires Inv(s) && (s.view == Selection || s.view == Playing)
    ensures s.pending == None
    ensures Step(s, Tick(now)) == if now < s.clock then s else s.(clock := now)
  {
  }

  /** Firing timers does not depend on the clock reading it starts from. */
  lemma {:induction false} AdvanceForgetsClock(s: State, c: int, now: int)
    ensures Advance(s.(clock := c), now) == Advance(s, now)
    decreases Rank(s)
  {
    if s.pending.Some? && s.pending.value.deadline <= now {
      assert Fire(s.(clock := c)) == Fire(s).(clock := c);
      AdvanceForgetsClock(Fire(s), c, now);
    }
  }

  /** Advancing to `a` and then to `b` fires the same timers as advancing to `b` at once. */
  lemma {:induction false} AdvanceComposes(s: State, a: int, b: int)
    requires a <= b
    ensures Advance(Advance(s, a), b) == Advance(s, b)
    decreases Rank(s)
  {
    if s.pending.Some? && s.pending.value.deadline <= a {
      AdvanceComposes(Fire(s), a, b);
    } else {
      AdvanceForgetsClock(s, a, b);
    }
  }

  /** The virtual clock has no granularity: one tick to `b` equals a tick to `a` followed by one to `b`. */
  lemma TickSplit(s: State, a: int, b: int)
    requires a <= b
    ensures Step(Step(s, Tick(a)), Tick(b)) == Step(s, Tick(b))
  {
    if s.clock <= a {
      AdvanceComposes(s, a, b);
    }
  }

  /** `handleStartAD`: audio description on, captions off, syncing with a fresh 5000 ms timer and a haptic cue. */
  lemma StartADSelectsAudioDescription(s: State)
    requires s.view == Selection || s.view == Complete
    ensures var r := Step(s, StartAD);
            && r.view == Syncing && r.adSelected && !r.ccSelected
            && r.pending == Some(Timer(s.clock + SyncDelayMs, Complete))
            && r.hapticCues == s.hapticCues + 1
            && r.isPlaying == s.isPlaying
  {
  }

  /** `handleStartCC`: the mirror image of `handleStartAD`. */
  lemma StartCCSelectsCaptions(s: State)
    requires s.view == Selection || s.view == Complete
    ensures var r := Step(s, StartCC);
            && r.view == Syncing && !r.adSelected && r.ccSelected
            && r.pending == Some(Timer(s.clock + SyncDelayMs, Complete))
            && r.hapticCues == s.hapticCues + 1
            && r.isPlaying == s.isPlaying
  {
  }

  /** The close button of the syncing screen returns to selection, clears both tracks and drops the timer. */
  lemma CancelReturnsToSelection(s: State)
    requires Inv(s) && s.view == Syncing
    ensures var r := Step(s, Cancel);
            && r.view == Selection && !r.adSelected && !r.ccSelected
            && r.pending == None
            && r.isPlaying == s.isPlaying && r.clock == s.clock
  {
  }

  /** In `playing` the transport button flips `isPlaying` and nothing else; pressing it twice restores the state. */
  lemma ToggleOnlyFlipsPlayback(s: State)
    requires s.view == Playing
    ensures Step(s, Toggle) == s.(isPlaying := !s.isPlaying)
    ensures Step(Step(s, Toggle), Toggle) == s
  {
  }

  /** Whether `e` is one of the two track buttons. */
  predicate StartsTrack(e: Event)
  {
    e.StartAD? || e.StartCC?
  }

  /** No event of `events` is a track button. */
  predicate NoNewSelection(events: seq<Event>)
  {
    forall i | 0 <= i < |events| :: !StartsTrack(events[i])
  }

  /** From `selection`, only a track button leaves it: ticks, cancels and toggles keep it there with no timer. */
  lemma {:induction false} SelectionWaitsForUser(s: State, events: seq<Event>)
    requires Inv(s) && s.view == Selection
    requires NoNewSelection(events)
    ensures Run(s, events).view == Selection
    ensures Run(s, events).pending == None
    decreases |events|
  {
    if |events| > 0 {
      assert !StartsTrack(events[0]);
      var s1 := Step(s, events[0]);
      if events[0].Tick? && s.clock <= events[0].now {
        NoTimerInSelectionOrPlaying(s, events[0].now);
      }
      assert s1.view == Selection;
      assert NoNewSelection(events[1..]) by {
        forall i | 0 <= i < |events[1..]|
          ensures !StartsTrack(events[1..][i])
        {
          assert events[1..][i] == events[i + 1];
        }
      }
      SelectionWaitsForUser(s1, events[1..]);
    }
  }

  /**
    A cancelled sync never auto-advances: after the close button, whatever
    ticks, cancels or toggles follow, every intermediate state is in
    `selection` with no timer, so the stale 5000 ms timer can never reach
    `complete`.
   */
  lemma CancelledSyncNeverAdvances(s: State, events: seq<Event>)
    requires Inv(s) && s.view == Syncing
    requires NoNewSelection(events)
    ensures forall k | 0 <= k <= |events| ::
      Run(Step(s, Cancel), events[..k]).view == Selection && Run(Step(s, Cancel), events[..k]).pending == None
  {
    var c := Step(s, Cancel);
    forall k | 0 <= k <= |events|
      ensures Run(c, events[..k]).view == Selection && Run(c, events[..k]).pending == None
    {
      assert NoNewSelection(events[..k]) by {
        forall i | 0 <= i < k
          ensures !StartsTrack(events[..k][i])
        {
          assert events[..k][i] == events[i];
        }
      }
      SelectionWaitsForUser(c, events[..k]);
    }
  }

  /**
    Every state reachable from mounting keeps the invariant: the track flags
    are exclusive, and a pending timer always targets the successor of the
    current view and has not come due.
   */
  lemma ReachableStatesAreConsistent(mountedAt: int, events: seq<Event>)
    ensures var r := Run(Initial(mountedAt), events);
            && Inv(r)
            && !(r.adSelected && r.ccSelected)
            && (r.pending.Some? ==> Successor(r.view) == Some(r.pending.value.target) && r.clock < r.pending.value.deadline)
            && (r.view == Selection || r.view == Playing ==> r.pending == None)
  {
  }

  /** While playing, the player shows the panels of exactly one track. */
  lemma OnePanelKindWhilePlaying(mountedAt: int, events: seq<Event>)
    ensures var r := Run(Initial(mountedAt), events);
            r.view == Playing ==>
              && Render(r).adPanels != Render(r).ccPanels
              && Render(r).adPanels == r.adSelected && Render(r).ccPanels == r.ccSelected
  {
  }

  /**
    Nothing on the screen ever clears `isGlassesConnected`, so from mounting
    the disconnected-glasses warning can never appear.
   */
  lemma WarningNeverShownFromMount(mountedAt: int, events: seq<Event>)
    ensures !WarningShown(Run(Initial(mountedAt), events))
  {
  }

  /**
    Caption scenario: select captions, let both delays pass, and the player
    shows the captions with the glasses badge; the warning is up exactly when
    the glasses are disconnected, and goes away as soon as they connect.
   */
  lemma CaptionScenario(s: State)
    requires Inv(s) && s.view == Selection
    ensures var r := Run(s, [StartCC, Tick(s.clock + SyncDelayMs + CompleteDelayMs)]);
            && r.view == Playing && r.ccSelected && !r.adSelected
            && BadgeShown(r)
            && (WarningShown(r) <==> !s.glassesConnected)
            && !WarningShown(r.(glassesConnected := true))
  {
    var now := s.clock + SyncDelayMs + CompleteDelayMs;
    var s1 := Step(s, StartCC);
    assert s1.view == Syncing && s1.enteredAt == s.clock;
    TickFollowsSchedule(s1, now);
    var s2 := Step(s1, Tick(now));
    assert s2.view == Playing;
    assert Run(s, [StartCC, Tick(now)]) == Run(s1, [Tick(now)]);
    assert Run(s1, [Tick(now)]) == Run(s2, []);
  }
}
