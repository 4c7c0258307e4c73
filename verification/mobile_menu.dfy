/**
 * The home page's mobile navigation: a menu button that flips `isMenuOpen`
 * and, while the menu is open, nav links that close it.
 */
module MobileMenu {

  /** The menu is closed when the page loads. */
  const InitiallyOpen := false

  /** A click on the menu button, or on any of the five mobile links, which all act alike. */
  datatype Event = MenuButton | NavLink

  /**
   * One click. The button toggles; a nav link closes the menu. Links are only
   * rendered while the menu is open, so a link click on a closed menu cannot
   * occur, and it would leave the menu closed anyway.
   */
  function Step(open: bool, e: Event): bool
  {
    match e
    case MenuButton => !open
    case NavLink => false
  }

  /** Whether the menu is open after the clicks `events`, the last one last. */
  function OpenAfter(events: seq<Event>): bool
    decreases |events|
  {
    if |events| == 0 then InitiallyOpen
    else Step(OpenAfter(events[..|events| - 1]), events[|events| - 1])
  }

  /** How many menu-button clicks follow the last nav-link click. */
  function TogglesSinceLastLink(events: seq<Event>): nat
    decreases |events|
  {
    if |events| == 0 then 0
    else if events[|events| - 1].NavLink? then 0
    else 1 + TogglesSinceLastLink(events[..|events| - 1])
  }

  /** Two button clicks in a row leave the menu as it was. */
  lemma ButtonTwiceRestores(open: bool)
    ensures Step(Step(open, MenuButton), MenuButton) == open
    ensures Step(open, MenuButton) != open
  {
  }

  /** Every nav link closes the menu. */
  lemma NavLinkCloses(open: bool)
    ensures !Step(open, NavLink)
  {
  }

  /** The menu is open exactly when an odd number of button clicks followed the last nav link. */
  lemma {:induction false} OpenIffOddToggles(events: seq<Event>)
    ensures OpenAfter(events) <==> TogglesSinceLastLink(events) % 2 == 1
    decreases |events|
  {
    if |events| > 0 {
      OpenIffOddToggles(events[..|events| - 1]);
    }
  }
}
