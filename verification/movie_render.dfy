/**
  The render dispatch of pages/MovieDetail.tsx, reduced to the parts that
  depend on state: which screen is returned, which of its panels and badges
  appear, and which buttons it offers.
 */
module MovieRender {
  import opened Wrappers
  import opened MovieState

  /**
    The three screens the component can return. The player screen carries the
    glasses badge (`Some(connected)` when present), whether the AD and CC
    panels appear, whether the disconnected-glasses warning appears, and
    whether the transport button shows the pause icon.
   */
  datatype Screen =
    | SelectionScreen
    | SyncingScreen
    | PlayerScreen(glassesBadge: Option<bool>, adPanels: bool, ccPanels: bool,
                   warning: bool, pauseIcon: bool)

  /** `playing` gets the player, `syncing` the sync animation, anything else the poster with the AD/CC buttons. */
  function Render(s: State): (scr: Screen)
    ensures scr.PlayerScreen? <==> s.view == Playing
    ensures scr.SyncingScreen? <==> s.view == Syncing
    ensures scr.SelectionScreen? <==> (s.view == Selection || s.view == Complete)
    ensures scr.PlayerScreen? ==> scr.adPanels == s.adSelected && scr.ccPanels == s.ccSelected
    ensures scr.PlayerScreen? ==> scr.pauseIcon == s.isPlaying
  {
    match s.view
    case Playing =>
      PlayerScreen(
        if s.ccSelected then Some(s.glassesConnected) else None,
        s.adSelected,
        s.ccSelected,
        s.ccSelected && !s.glassesConnected,
        s.isPlaying)
    case Syncing => SyncingScreen
    case _ => SelectionScreen
  }

  /** Whether screen `scr` lets event `e` happen; the clock is not a button and always runs. */
  predicate Offers(scr: Screen, e: Event)
  {
    match e
    case StartAD => scr.SelectionScreen?
    case StartCC => scr.SelectionScreen?
    case Cancel => scr.SyncingScreen?
    case Toggle => scr.PlayerScreen?
    case Tick(_) => true
  }

  /** Whether the screen shown in state `s` offers event `e`, by view. */
  function Offered(s: State, e: Event): (b: bool)
    ensures e.StartAD? || e.StartCC? ==> (b <==> s.view == Selection || s.view == Complete)
    ensures e.Cancel? ==> (b <==> s.view == Syncing)
    ensures e.Toggle? ==> (b <==> s.view == Playing)
    ensures e.Tick? ==> b
  {
    Offers(Render(s), e)
  }

  /** The glasses badge in the player header appears exactly while playing with captions. */
  function BadgeShown(s: State): (b: bool)
    ensures b <==> s.view == Playing && s.ccSelected
  {
    var scr := Render(s);
    scr.PlayerScreen? && scr.glassesBadge.Some?
  }

  /** The badge, when shown, reports the connection state of the glasses. */
  function BadgeSaysConnected(s: State): (b: bool)
    ensures b <==> s.view == Playing && s.ccSelected && s.glassesConnected
  {
    var scr := Render(s);
    scr.PlayerScreen? && scr.glassesBadge == Some(true)
  }

  /** The "glasses not connected" warning appears exactly while playing with captions and no glasses. */
  function WarningShown(s: State): (b: bool)
    ensures b <==> s.view == Playing && s.ccSelected && !s.glassesConnected
  {
    var scr := Render(s);
    scr.PlayerScreen? && scr.warning
  }
}
