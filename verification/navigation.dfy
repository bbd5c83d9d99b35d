/** Navigation rules of the page: which link clicks are taken over for smooth
    scrolling, the mobile menu's open/closed state, and the navigation bar's
    look as a function of the scroll offset. */
module Navigation {
  import opened Results

  /** Widths up to this many CSS pixels count as mobile: there a fragment
      link click also closes the menu. */
  const MobileMaxWidth: int := 768

  /** Beyond this vertical scroll offset the bar gets its "scrolled" look. */
  const ScrollThreshold: real := 50.0

  /** `href.startsWith('#')`: a link to a fragment of this page. */
  predicate IsFragmentLink(href: string)
  {
    |href| > 0 && href[0] == '#'
  }

  /** What a click on a navigation link does: whether the default navigation
      is prevented, the selector scrolled into view (none when the handler
      stopped with an exception first), and whether the menu is open
      afterwards. */
  datatype ClickOutcome = ClickOutcome(intercepted: bool, scrollTo: Option<string>, menuOpen: bool)

  /** The click handler of the navigation links. `found` tells whether
      `document.querySelector(href)` yields an element: it is false when the
      fragment is no valid selector (a bare `#`, `#1top`), where the call
      throws, and when no element matches, where `scrollIntoView` is called on
      null and throws. Either exception ends the handler after
      `preventDefault` and before the menu is touched. */
  function ClickNavLink(href: string, found: bool, innerWidth: int, menuOpen: bool): (r: ClickOutcome)
  {
    if !IsFragmentLink(href) then ClickOutcome(false, None, menuOpen)
    else if !found then ClickOutcome(true, None, menuOpen)
    else ClickOutcome(true, Some(href), if innerWidth <= MobileMaxWidth then false else menuOpen)
  }

  /** A click is taken over exactly when the link is a fragment link; it
      scrolls exactly when the target is found; the menu changes only for a
      found target at mobile widths, where it closes. */
  lemma ClickRule(href: string, found: bool, innerWidth: int, menuOpen: bool)
    ensures var r := ClickNavLink(href, found, innerWidth, menuOpen);
            && (r.intercepted <==> href != [] && href[0] == '#')
            && (!r.intercepted ==> r == ClickOutcome(false, None, menuOpen))
            && (r.scrollTo.Some? <==> r.intercepted && found)
            && (r.scrollTo.Some? ==> r.scrollTo == Some(href))
            && (r.menuOpen <==> menuOpen && !(IsFragmentLink(href) && found && innerWidth <= 768))
  {
  }

  /** `classList.toggle('active')` on the menu. */
  function ToggleMenu(open: bool): (r: bool)
    ensures r != open
  {
    !open
  }

  /** The events that change the menu state. */
  datatype MenuEvent = ToggleClick | LinkClick(href: string, found: bool, innerWidth: int)

  predicate ClosesMenu(e: MenuEvent)
  {
    e.LinkClick? && IsFragmentLink(e.href) && e.found && e.innerWidth <= MobileMaxWidth
  }

  function MenuStep(open: bool, e: MenuEvent): bool
  {
    match e
    case ToggleClick => ToggleMenu(open)
    case LinkClick(href, found, w) => ClickNavLink(href, found, w, open).menuOpen
  }

  /** Menu state after a series of events. */
  function RunMenu(open: bool, events: seq<MenuEvent>): bool
    decreases |events|
  {
    if |events| == 0 then open else RunMenu(MenuStep(open, events[0]), events[1..])
  }

  function ToggleCount(events: seq<MenuEvent>): nat
  {
    if |events| == 0 then 0
    else (if events[0].ToggleClick? then 1 else 0) + ToggleCount(events[1..])
  }

  lemma {:induction false} RunMenuConcat(open: bool, a: seq<MenuEvent>, b: seq<MenuEvent>)
    ensures RunMenu(open, a + b) == RunMenu(RunMenu(open, a), b)
    decreases |a|
  {
    if |a| > 0 {
      assert (a + b)[0] == a[0];
      assert (a + b)[1..] == a[1..] + b;
      RunMenuConcat(MenuStep(open, a[0]), a[1..], b);
    } else {
      assert a + b == b;
    }
  }

  /** Without a closing link click, the menu is open exactly when it started
      open and was toggled an even number of times, or started closed and was
      toggled an odd number of times: two toggles cancel. */
  lemma {:induction false} MenuParity(open: bool, events: seq<MenuEvent>)
    requires forall k :: 0 <= k < |events| ==> !ClosesMenu(events[k])
    ensures RunMenu(open, events) == (open != (ToggleCount(events) % 2 == 1))
    decreases |events|
  {
    if |events| > 0 {
      assert !ClosesMenu(events[0]);
      MenuParity(MenuStep(open, events[0]), events[1..]);
    }
  }

  /** A closing link click forgets everything before it: afterwards the menu
      behaves as if it had started closed. */
  lemma CloseResets(open: bool, before: seq<MenuEvent>, e: MenuEvent, after: seq<MenuEvent>)
    requires ClosesMenu(e)
    ensures RunMenu(open, before + [e] + after) == RunMenu(false, after)
  {
    RunMenuConcat(open, before + [e], after);
    RunMenuConcat(open, before, [e]);
  }

  /** The two looks of the navigation bar. */
  datatype NavbarLook = AtTop | Scrolled

  /** The scroll handler's choice, from `window.scrollY` alone. */
  function NavbarLookAt(scrollY: real): NavbarLook
  {
    if scrollY > ScrollThreshold then Scrolled else AtTop
  }

  /** The look after a series of scroll events, starting from `initial`. */
  function NavbarAfter(initial: NavbarLook, offsets: seq<real>): NavbarLook
    decreases |offsets|
  {
    if |offsets| == 0 then initial else NavbarAfter(NavbarLookAt(offsets[0]), offsets[1..])
  }

  /** The bar is "scrolled" exactly beyond 50 pixels (50 itself is the top
      look), and the look only grows with the offset. */
  lemma NavbarThreshold(y: real, z: real)
    ensures NavbarLookAt(y) == Scrolled <==> y > 50.0
    ensures y <= z && NavbarLookAt(y) == Scrolled ==> NavbarLookAt(z) == Scrolled
  {
  }

  /** No hysteresis: after any scrolling the look depends on the last offset
      only, not on the path taken to it. */
  lemma {:induction false} NavbarNoHistory(initial: NavbarLook, offsets: seq<real>)
    requires |offsets| > 0
    ensures NavbarAfter(initial, offsets) == NavbarLookAt(offsets[|offsets| - 1])
    decreases |offsets|
  {
    if |offsets| > 1 {
      NavbarNoHistory(NavbarLookAt(offsets[0]), offsets[1..]);
    }
  }
}
