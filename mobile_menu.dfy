/**
 * The hamburger menu (js/main.js, sections 3 and 4): the open class of the
 * mobile navigation, the active class of the toggle button, the body's
 * overflow style and the button's aria-expanded attribute.
 */
module MobileMenu {

  /** The aria-expanded text setAttribute writes for a boolean. */
  function AriaText(isOpen: bool): (text: string)
    ensures text == "true" || text == "false"
    ensures text == "true" <==> isOpen
  {
    if isOpen then "true" else "false"
  }

  /** The body's overflow style while the menu is open or closed. */
  function OverflowFor(isOpen: bool): (style: string)
    ensures style == [] <==> !isOpen
  {
    if isOpen then "hidden" else ""
  }

  class Menu {
    /** nav-mobile--open on the mobile navigation. */
    var navOpen: bool
    /** menu-toggle--active on the toggle button. */
    var toggleActive: bool
    /** document.body.style.overflow */
    var bodyOverflow: string
    /** The toggle button's aria-expanded attribute. */
    var ariaExpanded: string

    /** Button, navigation, body and attribute agree on whether the menu is
        open. */
    ghost predicate Consistent()
      reads this
    {
      && toggleActive == navOpen
      && bodyOverflow == OverflowFor(navOpen)
      && ariaExpanded == AriaText(navOpen)
    }

    /** The state the markup starts from, whatever it is. */
    constructor (navOpen: bool, toggleActive: bool, bodyOverflow: string, ariaExpanded: string)
      ensures this.navOpen == navOpen && this.toggleActive == toggleActive
      ensures this.bodyOverflow == bodyOverflow && this.ariaExpanded == ariaExpanded
    {
      this.navOpen := navOpen;
      this.toggleActive := toggleActive;
      this.bodyOverflow := bodyOverflow;
      this.ariaExpanded := ariaExpanded;
    }

    /** toggleMobileMenu: both classes flip independently; the overflow style
        and aria-expanded follow the navigation's new open state. */
    method Toggle() returns (isOpen: bool)
      modifies this
      ensures isOpen == !old(navOpen)
      ensures navOpen == isOpen && toggleActive == !old(toggleActive)
      ensures bodyOverflow == OverflowFor(isOpen) && ariaExpanded == AriaText(isOpen)
      ensures old(Consistent()) ==> Consistent()
    {
      navOpen := !navOpen;
      isOpen := navOpen;
      toggleActive := !toggleActive;
      bodyOverflow := if isOpen then "hidden" else "";
      ariaExpanded := if isOpen then "true" else "false";
    }

    /** closeMobileMenu: the menu is closed and consistent, whatever state it
        was in. */
    method Close()
      modifies this
      ensures !navOpen && !toggleActive && bodyOverflow == "" && ariaExpanded == "false"
      ensures Consistent()
    {
      navOpen := false;
      toggleActive := false;
      bodyOverflow := "";
      ariaExpanded := "false";
    }

    /** The resize listener: from a width of 1024 pixels up the menu is
        closed; below it nothing changes. */
    method Resize(innerWidth: int)
      modifies this
      ensures innerWidth >= 1024 ==> !navOpen && !toggleActive && bodyOverflow == "" && ariaExpanded == "false"
      ensures innerWidth < 1024 ==>
        && navOpen == old(navOpen) && toggleActive == old(toggleActive)
        && bodyOverflow == old(bodyOverflow) && ariaExpanded == old(ariaExpanded)
      ensures old(Consistent()) ==> Consistent()
    {
      if innerWidth >= 1024 {
        Close();
      }
    }
  }

  /** Toggling twice from a consistent state gives back that state, and
      closing twice is closing once. */
  method ToggleTwiceRestores(m: Menu)
    requires m.Consistent()
    modifies m
    ensures m.navOpen == old(m.navOpen) && m.toggleActive == old(m.toggleActive)
    ensures m.bodyOverflow == old(m.bodyOverflow) && m.ariaExpanded == old(m.ariaExpanded)
  {
    var first := m.Toggle();
    var second := m.Toggle();
    assert second == !first;
  }
}
