/**
  The navigation bar's handlers: the mobile menu button toggles the menu
  open and closed and locks page scrolling while it is open; a click on a
  navigation link closes the menu and scrolls to the linked section below
  the fixed header; scrolling marks the bar as scrolled past a threshold.

  The state is the `active` class of the menu button and of the menu, the
  body's overflow style and the bar's `scrolled` class. The transitions
  are stated on values (`NavState`, `Toggled`, `Clicked`, `Scrolled`); the
  class `NavBar` holds the same state in fields and its methods are proved
  against those functions.
 */
module Navigation {

  /** Height of the fixed header, subtracted from a section's offset. */
  const HeaderOffset := 70
  /** Scroll position past which the bar is marked as scrolled. */
  const ScrollThreshold: real := 50.0

  datatype Option<T> = None | Some(value: T)

  /** The body's overflow style: not yet set by the script, or set. */
  datatype Overflow = Unset | Hidden | Visible

  datatype NavState = NavState(mobileActive: bool, navActive: bool,
                               overflow: Overflow, scrolled: bool)

  /** The menu button's click handler. */
  function Toggled(s: NavState): NavState {
    var nav := !s.navActive;
    s.(mobileActive := !s.mobileActive, navActive := nav,
       overflow := if nav then Hidden else Visible)
  }

  /** A navigation link's click handler. */
  function Clicked(s: NavState): NavState {
    s.(mobileActive := false, navActive := false, overflow := Visible)
  }

  /** The window's scroll handler at scroll position `y`. */
  function Scrolled(s: NavState, y: real): NavState {
    s.(scrolled := y > ScrollThreshold)
  }

  /** Where a link click scrolls to: nowhere when the link's target section
      does not exist, else the section's offset less the header height. */
  function ScrollDestination(target: Option<int>): (top: Option<int>)
    ensures top.Some? <==> target.Some?
    ensures top.Some? ==> top.value + HeaderOffset == target.value
  {
    match target
    case None => None
    case Some(offsetTop) => Some(offsetTop - HeaderOffset)
  }

  /** The two `active` flags agree. */
  ghost predicate Synced(s: NavState) {
    s.mobileActive == s.navActive
  }

  /** The menu flags agree and scrolling is locked exactly while the menu is open. */
  ghost predicate MenuConsistent(s: NavState) {
    Synced(s) && (s.overflow == Hidden <==> s.navActive)
  }

  // ---------------------------------------------------------------------
  // Properties of the handlers

  /** A toggle flips both flags and sets the overflow from the menu's new state;
      two toggles give the flags back. */
  lemma ToggleFlips(s: NavState)
    ensures Toggled(s).mobileActive == !s.mobileActive
    ensures Toggled(s).navActive == !s.navActive
    ensures Toggled(s).overflow == Hidden <==> Toggled(s).navActive
    ensures Toggled(s).overflow == Visible <==> !Toggled(s).navActive
    ensures Toggled(s).scrolled == s.scrolled
    ensures Toggled(Toggled(s)).mobileActive == s.mobileActive
    ensures Toggled(Toggled(s)).navActive == s.navActive
  {
  }

  /** A link click closes the menu whatever the state before, so clicking
      twice is the same as clicking once. */
  lemma ClickCloses(s: NavState)
    ensures !Clicked(s).mobileActive && !Clicked(s).navActive
    ensures Clicked(s).overflow == Visible
    ensures Clicked(s).scrolled == s.scrolled
    ensures Clicked(Clicked(s)) == Clicked(s)
  {
  }

  /** Agreement of the two flags is kept by both click handlers, and the
      stronger consistency too. */
  lemma HandlersKeepSynced(s: NavState)
    ensures Synced(s) ==> Synced(Toggled(s))
    ensures MenuConsistent(s) ==> MenuConsistent(Toggled(s))
    ensures Synced(Clicked(s)) && MenuConsistent(Clicked(s))
  {
  }

  /** The scrolled mark depends only on the current position, not on the
      state before or on earlier positions, and touches nothing else. */
  lemma ScrollDependsOnlyOnPosition(s: NavState, t: NavState, y: real, z: real)
    ensures Scrolled(s, y).scrolled <==> y > ScrollThreshold
    ensures Scrolled(s, y).scrolled == Scrolled(t, y).scrolled
    ensures Scrolled(Scrolled(s, z), y) == Scrolled(s, y)
    ensures Scrolled(s, y).(scrolled := s.scrolled) == s
  {
  }

  // ---------------------------------------------------------------------
  // The navigation bar on the page

  class NavBar {
    var mobileActive: bool
    var navActive: bool
    var overflow: Overflow
    var scrolled: bool

    function State(): NavState
      reads this
    {
      NavState(mobileActive, navActive, overflow, scrolled)
    }

    /** The assumed starting state from the markup: menu closed, overflow untouched, not scrolled. */
    constructor ()
      ensures State() == NavState(false, false, Unset, false)
      ensures MenuConsistent(State())
    {
      mobileActive, navActive, overflow, scrolled := false, false, Unset, false;
    }

    method ToggleMenu()
      modifies this
      ensures State() == Toggled(old(State()))
      ensures MenuConsistent(old(State())) ==> MenuConsistent(State())
    {
      mobileActive := !mobileActive;
      navActive := !navActive;
      overflow := if navActive then Hidden else Visible;
    }

    /** `target` is the linked section's offset, or None when no section is
        found. None also covers an `href` that is not a valid selector (such
        as "#"), where the lookup throws after the menu has been closed, so
        nothing scrolls. The result is where the window is asked to scroll to. */
    method LinkClick(target: Option<int>) returns (scrollTo: Option<int>)
      modifies this
      ensures State() == Clicked(old(State()))
      ensures MenuConsistent(State())
      ensures scrollTo == ScrollDestination(target)
    {
      mobileActive := false;
      navActive := false;
      overflow := Visible;
      match target {
        case None => scrollTo := None;
        case Some(offsetTop) => scrollTo := Some(offsetTop - HeaderOffset);
      }
    }

    method OnScroll(y: real)
      modifies this
      ensures State() == Scrolled(old(State()), y)
      ensures scrolled <==> y > ScrollThreshold
    {
      if y > ScrollThreshold {
        scrolled := true;
      } else {
        scrolled := false;
      }
    }
  }
}
