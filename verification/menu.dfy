/**
 * The hamburger button and the mobile menu. The menu's "open" class is the
 * state; the button's "open" class, the button's aria-expanded, the menu's
 * aria-hidden and the body's overflow style follow it. Clicking the button
 * toggles the menu; clicking a link inside the menu closes it.
 */
module MobileMenu {

  /** How setAttribute stores a boolean value. */
  function AttrBool(b: bool): string {
    if b then "true" else "false"
  }

  class Menu {
    /** The mobile menu has the class "open". */
    var menuOpen: bool
    /** The hamburger button has the class "open". */
    var buttonOpen: bool
    /** The button's aria-expanded attribute. */
    var ariaExpanded: string
    /** The menu's aria-hidden attribute. */
    var ariaHidden: string
    /** document.body.style.overflow. */
    var bodyOverflow: string

    /** The four derived attributes agree with the menu's "open" class. */
    ghost predicate InSync()
      reads this
    {
      && buttonOpen == menuOpen
      && ariaExpanded == AttrBool(menuOpen)
      && ariaHidden == AttrBool(!menuOpen)
      && bodyOverflow == (if menuOpen then "hidden" else "")
    }

    /** The state the markup starts with; the handlers assume nothing about it. */
    constructor (menuOpen: bool, buttonOpen: bool, ariaExpanded: string, ariaHidden: string,
                 bodyOverflow: string)
      ensures this.menuOpen == menuOpen && this.buttonOpen == buttonOpen
      ensures this.ariaExpanded == ariaExpanded && this.ariaHidden == ariaHidden
      ensures this.bodyOverflow == bodyOverflow
    {
      this.menuOpen := menuOpen;
      this.buttonOpen := buttonOpen;
      this.ariaExpanded := ariaExpanded;
      this.ariaHidden := ariaHidden;
      this.bodyOverflow := bodyOverflow;
    }

    /** A click on the hamburger: flip the menu and bring the rest in line. */
    method HamburgerClick()
      modifies this
      ensures menuOpen == !old(menuOpen)
      ensures InSync()
    {
      menuOpen := !menuOpen;
      var isOpen := menuOpen;
      buttonOpen := isOpen;
      ariaExpanded := AttrBool(isOpen);
      ariaHidden := AttrBool(!isOpen);
      bodyOverflow := if isOpen then "hidden" else "";
    }

    /** A click on a link of the mobile menu: close it. */
    method LinkClick()
      modifies this
      ensures !menuOpen
      ensures InSync()
    {
      menuOpen := false;
      buttonOpen := false;
      ariaExpanded := "false";
      ariaHidden := "true";
      bodyOverflow := "";
    }
  }

  /** Two hamburger clicks restore the menu; from a consistent state they
      restore every attribute. */
  method HamburgerTwice(m: Menu)
    modifies m
    ensures m.menuOpen == old(m.menuOpen) && m.InSync()
    ensures old(m.InSync()) ==>
              && m.buttonOpen == old(m.buttonOpen) && m.ariaExpanded == old(m.ariaExpanded)
              && m.ariaHidden == old(m.ariaHidden) && m.bodyOverflow == old(m.bodyOverflow)
  {
    m.HamburgerClick();
    m.HamburgerClick();
  }

  /** A link click on a menu that a link click already closed changes
      nothing. */
  method LinkClickAgain(m: Menu)
    requires !m.menuOpen && m.InSync()
    modifies m
    ensures m.menuOpen == old(m.menuOpen) && m.buttonOpen == old(m.buttonOpen)
    ensures m.ariaExpanded == old(m.ariaExpanded) && m.ariaHidden == old(m.ariaHidden)
    ensures m.bodyOverflow == old(m.bodyOverflow)
  {
    m.LinkClick();
  }
}
