/**
  The component state of the movie-detail screen (pages/MovieDetail.tsx) and
  the effect that arms the timer of each timed view.

  React's `setTimeout` is replaced by a virtual clock: the state records the
  current time, the time the current view was entered and at most one pending
  timer, given by its deadline and the view it will set.
 */
module MovieState {
  import opened Wrappers

  /** The four values of `viewState`. */
  datatype View = Selection | Syncing | Complete | Playing

  /** The two assistive tracks: audio description and closed captions. */
  datatype Track = AD | CC

  /** A pending `setTimeout`: when it fires and which view it sets. */
  datatype Timer = Timer(deadline: int, target: View)

  /** What can happen to the screen: a button press, or the clock reading `now`. */
  datatype Event = StartAD | StartCC | Cancel | Toggle | Tick(now: int)

  /** Delay of the timer armed on entering `Syncing`, in milliseconds. */
  const SyncDelayMs: int := 5000

  /** Delay of the timer armed on entering `Complete`, in milliseconds. */
  const CompleteDelayMs: int := 2000

  /**
    The component's state. `glassesConnected` is `isGlassesConnected`, which
    nothing on this screen ever sets; `hapticCues` counts the vibration
    requests made on entering `Syncing`.
   */
  datatype State = State(
    view: View,
    adSelected: bool,
    ccSelected: bool,
    isPlaying: bool,
    glassesConnected: bool,
    pending: Option<Timer>,
    clock: int,
    enteredAt: int,
    hapticCues: nat
  )

  /** The view a timed view hands over to when its timer fires. */
  function Successor(v: View): Option<View>
  {
    match v
    case Syncing => Some(Complete)
    case Complete => Some(Playing)
    case _ => None
  }

  /**
    The timer the effect arms when the view becomes `v` at time `t`: none in
    `Selection` and `Playing`, otherwise one that later sets the successor.
   */
  function Arm(v: View, t: int): (r: Option<Timer>)
    ensures r.None? <==> (v == Selection || v == Playing)
    ensures r.Some? ==> Successor(v) == Some(r.value.target) && t < r.value.deadline
  {
    match v
    case Syncing => Some(Timer(t + SyncDelayMs, Complete))
    case Complete => Some(Timer(t + CompleteDelayMs, Playing))
    case _ => None
  }

  /**
    `setViewState(v)` at time `t`. React re-runs the effect only when the
    value really changes; when it does, the cleanup clears the old timer and
    the effect arms the one for `v`, vibrating first when `v` is `Syncing`.
   */
  function Enter(s: State, v: View, t: int): (r: State)
    ensures r.view == v
    ensures v == s.view ==> r == s
    ensures v != s.view ==> r.pending == Arm(v, t) && r.enteredAt == t
    ensures r.hapticCues == s.hapticCues + (if v == Syncing && s.view != Syncing then 1 else 0)
    ensures r.(view := s.view, pending := s.pending, enteredAt := s.enteredAt, hapticCues := s.hapticCues) == s
  {
    if v == s.view then s
    else s.(view := v, pending := Arm(v, t), enteredAt := t,
            hapticCues := if v == Syncing then s.hapticCues + 1 else s.hapticCues)
  }

  /** The pending timer is exactly the one armed when the current view was entered. */
  predicate Timed(s: State)
  {
    s.pending == Arm(s.view, s.enteredAt)
  }

  /**
    The invariant of every state the screen can reach: the two track flags
    are never both set, a track is selected exactly when the view has left
    `Selection`, the pending timer belongs to the current view, and it has
    not yet come due.
   */
  predicate Inv(s: State)
  {
    && !(s.adSelected && s.ccSelected)
    && (s.view == Selection <==> !s.adSelected && !s.ccSelected)
    && Timed(s)
    && s.enteredAt <= s.clock
    && (s.pending.Some? ==> s.clock < s.pending.value.deadline)
  }

  /**
    The state on mounting at time `mountedAt`: the selection view, no track,
    playback flag on, glasses reported as connected, no timer.
   */
  function Initial(mountedAt: int): (s: State)
    ensures Inv(s)
    ensures s.view == Selection && s.pending == None
    ensures !s.adSelected && !s.ccSelected && s.isPlaying && s.glassesConnected
    ensures s.clock == mountedAt
  {
    State(Selection, false, false, true, true, None, mountedAt, mountedAt, 0)
  }
}
