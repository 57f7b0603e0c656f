/**
  The event handlers of pages/MovieDetail.tsx and the transition function
  `Step` that dispatches an event to them, plus `Run` over event sequences.
 */
module MovieStep {
  import opened Wrappers
  import opened MovieState
  import opened MovieRender

  /** `handleStartAD` / `handleStartCC`: select one track, drop the other, start syncing. */
  function StartTrack(s: State, track: Track): (r: State)
    ensures r.view == Syncing
    ensures r.adSelected == (track == AD) && r.ccSelected == (track == CC)
    ensures s.view != Syncing ==> r.pending == Some(Timer(s.clock + SyncDelayMs, Complete))
    ensures s.view != Syncing ==> r.hapticCues == s.hapticCues + 1
    ensures r.isPlaying == s.isPlaying && r.glassesConnected == s.glassesConnected && r.clock == s.clock
    ensures Inv(s) ==> Inv(r)
  {
    Enter(s.(adSelected := track == AD, ccSelected := track == CC), Syncing, s.clock)
  }

  /** The close button of the syncing screen: back to selection with no track. */
  function CancelSync(s: State): (r: State)
    ensures r.view == Selection && !r.adSelected && !r.ccSelected
    ensures s.view != Selection ==> r.pending == None
    ensures r.isPlaying == s.isPlaying && r.glassesConnected == s.glassesConnected && r.clock == s.clock
    ensures r.hapticCues == s.hapticCues
    ensures Inv(s) ==> Inv(r)
  {
    Enter(s, Selection, s.clock).(adSelected := false, ccSelected := false)
  }

  /** The play/pause button of the player: flips the flag and nothing else. */
  function TogglePlayback(s: State): (r: State)
    ensures r.isPlaying != s.isPlaying
    ensures r.(isPlaying := s.isPlaying) == s
  {
    s.(isPlaying := !s.isPlaying)
  }

  /** How many more timers can fire after entering `v` with no user event. */
  function Chain(v: View): nat
  {
    match v
    case Syncing => 2
    case Complete => 1
    case _ => 0
  }

  /** How many timers at most are still to fire from `s`; bounds the firing loop of a tick. */
  function Rank(s: State): nat
  {
    match s.pending
    case None => 0
    case Some(t) => 1 + Chain(t.target)
  }

  /** The pending timer fires at its deadline and its callback sets the target view. */
  function Fire(s: State): (r: State)
    requires s.pending.Some?
    ensures Rank(r) < Rank(s)
    ensures r.view == s.pending.value.target
    ensures r.clock == s.clock
    ensures r.adSelected == s.adSelected && r.ccSelected == s.ccSelected
    ensures r.isPlaying == s.isPlaying && r.glassesConnected == s.glassesConnected
    ensures Timed(s) ==> Timed(r) && r.enteredAt == s.pending.value.deadline
  {
    Enter(s.(pending := None), s.pending.value.target, s.pending.value.deadline)
  }

  /**
    The clock moves to `now`; every timer whose deadline has been reached
    fires, in order, each at its own deadline.
   */
  function Advance(s: State, now: int): (r: State)
    decreases Rank(s)
    ensures r.clock == now
    ensures r.pending.Some? ==> now < r.pending.value.deadline
    ensures r.adSelected == s.adSelected && r.ccSelected == s.ccSelected
    ensures r.isPlaying == s.isPlaying && r.glassesConnected == s.glassesConnected
    ensures s.enteredAt <= now ==> r.enteredAt <= now
    ensures Timed(s) ==> Timed(r)
    ensures Timed(s) ==> r.hapticCues == s.hapticCues
    ensures Timed(s) ==> (r.view == Selection <==> s.view == Selection)
    ensures Timed(s) ==> (r.view == Syncing ==> s.view == Syncing)
    ensures Timed(s) && r.view != s.view ==> s.pending.Some? && s.pending.value.deadline <= r.enteredAt
  {
    if s.pending.Some? && s.pending.value.deadline <= now then Advance(Fire(s), now)
    else s.(clock := now)
  }

  /** The clock reads `now`; a reading earlier than the clock is ignored, since time does not run backwards. */
  function TickTo(s: State, now: int): (r: State)
    ensures now < s.clock ==> r == s
    ensures s.clock <= now ==> r.clock == now
    ensures r.adSelected == s.adSelected && r.ccSelected == s.ccSelected
    ensures r.isPlaying == s.isPlaying && r.glassesConnected == s.glassesConnected
    ensures Inv(s) ==> Inv(r)
    ensures Timed(s) && r.view != s.view ==> s.pending.Some? && s.pending.value.deadline <= r.enteredAt
  {
    if now < s.clock then s else Advance(s, now)
  }

  /**
    One event. A button the current screen does not render cannot be
    pressed, so such an event leaves the state as it is.
   */
  function Step(s: State, e: Event): (r: State)
    ensures !Offered(s, e) ==> r == s
    ensures Inv(s) ==> Inv(r)
    ensures r.glassesConnected == s.glassesConnected
    ensures s.clock <= r.clock
    ensures Inv(s) && r.view != s.view ==> s.clock <= r.enteredAt
    ensures !e.Tick? && r.view != s.view ==> r.enteredAt == s.clock
    ensures Inv(s) && e.Tick? && r.view != s.view ==> s.pending.Some? && s.pending.value.deadline <= r.enteredAt
    ensures Inv(s) ==> r.hapticCues == s.hapticCues + (if r.view == Syncing && s.view != Syncing then 1 else 0)
  {
    if !Offered(s, e) then s
    else
      match e
      case StartAD => StartTrack(s, AD)
      case StartCC => StartTrack(s, CC)
      case Cancel => CancelSync(s)
      case Toggle => TogglePlayback(s)
      case Tick(now) => TickTo(s, now)
  }

  /** The events of `events`, one after another. */
  function Run(s: State, events: seq<Event>): (r: State)
    decreases |events|
    ensures Inv(s) ==> Inv(r)
    ensures r.glassesConnected == s.glassesConnected
    ensures s.clock <= r.clock
  {
    if |events| == 0 then s else Run(Step(s, events[0]), events[1..])
  }
}
