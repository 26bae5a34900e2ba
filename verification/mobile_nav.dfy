/**
 The mobile navigation (js/main.js): the toggle button flips the `active`
 class on itself and on the mobile menu and locks page scrolling while the
 menu is open; a click on a menu link, or the Escape key while the menu is
 open, closes it again.
 */
module MobileNav {

  /** `document.body.style.overflow`: `'hidden'` or the empty default. */
  datatype Overflow = Hidden | Default

  datatype Nav = Nav(toggleActive: bool, menuActive: bool, overflow: Overflow)

  datatype Event = ToggleClick | LinkClick | EscapeKey

  /** Both elements without `active`, scrolling allowed: the page as loaded,
      and the state every close handler writes. */
  const Closed: Nav := Nav(false, false, Default)

  /** The toggle button and the menu agree, and scrolling is locked exactly
      while the menu is open. */
  predicate Consistent(n: Nav) {
    n.toggleActive == n.menuActive && (n.overflow == Hidden <==> n.menuActive)
  }

  /** A click on the toggle button: both `active` classes flip, and the
      overflow follows the menu's new state. */
  function Toggle(n: Nav): (r: Nav)
    ensures r.menuActive == !n.menuActive && r.toggleActive == !n.toggleActive
    ensures r.overflow == Hidden <==> r.menuActive
  {
    var menu := !n.menuActive;
    Nav(!n.toggleActive, menu, if menu then Hidden else Default)
  }

  /** A click on a link inside the menu closes it unconditionally. */
  function LinkClose(n: Nav): (r: Nav)
    ensures Consistent(r) && !r.menuActive && r.overflow == Default
  {
    Closed
  }

  /** The Escape key closes the menu only while it is open. */
  function EscapeClose(n: Nav): (r: Nav)
    ensures n.menuActive ==> Consistent(r) && !r.menuActive && r.overflow == Default
    ensures !n.menuActive ==> r == n
  {
    if n.menuActive then Closed else n
  }

  /** The reaction to one event. Every event keeps the toggle and the menu in
      agreement and the scroll lock tied to the open menu; a toggle click
      flips the menu, and from a consistent state a link click or Escape
      leaves the page as loaded. */
  function Step(n: Nav, e: Event): (r: Nav)
    ensures Consistent(n) ==> Consistent(r)
    ensures e == ToggleClick ==> r.menuActive == !n.menuActive
    ensures e != ToggleClick && Consistent(n) ==> r == Closed
  {
    match e
    case ToggleClick => Toggle(n)
    case LinkClick => LinkClose(n)
    case EscapeKey => EscapeClose(n)
  }

  /** The state after a sequence of events, in order. */
  function Run(n: Nav, events: seq<Event>): Nav
    decreases |events|
  {
    if |events| == 0 then n else Run(Step(n, events[0]), events[1..])
  }

  /** From page load, no sequence of events can get the toggle and the menu
      out of step or leave scrolling locked under a closed menu. */
  lemma {:induction false} RunKeepsConsistent(n: Nav, events: seq<Event>)
    requires Consistent(n)
    ensures Consistent(Run(n, events))
    decreases |events|
  {
    if |events| > 0 {
      RunKeepsConsistent(Step(n, events[0]), events[1..]);
    }
  }

  /** Two toggle clicks restore the state. */
  lemma ToggleTwiceRestores(n: Nav)
    requires Consistent(n)
    ensures Step(Step(n, ToggleClick), ToggleClick) == n
  {
  }

  /** After any sequence that ends in a link click or Escape, the menu is
      closed and scrolling is free. */
  lemma EndsClosedAfterClose(n: Nav, events: seq<Event>, last: Event)
    requires Consistent(n) && last != ToggleClick
    ensures var r := Run(n, events + [last]); !r.menuActive && r.overflow == Default
  {
    RunAppend(n, events, last);
    RunKeepsConsistent(n, events);
  }

  lemma {:induction false} RunAppend(n: Nav, events: seq<Event>, last: Event)
    ensures Run(n, events + [last]) == Step(Run(n, events), last)
    decreases |events|
  {
    if |events| > 0 {
      assert (events + [last])[1..] == events[1..] + [last];
      RunAppend(Step(n, events[0]), events[1..], last);
    } else {
      assert events + [last] == [last];
    }
  }
}
