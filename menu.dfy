/**
 * The mobile menu: the toggle button's 'active' class and the link
 * container's 'show' class (script.js:67-76), and the Escape key handler
 * that closes the menu (script.js:497-507).
 */
module Menu {

  class MobileMenu {
    /** The toggle button bears 'active'. */
    var toggleActive: bool
    /** The `.nav-links` container bears 'show'. */
    var linksShown: bool

    /** The markup starts with neither class. */
    constructor ()
      ensures !toggleActive && !linksShown
    {
      toggleActive, linksShown := false, false;
    }

    /** The button's look agrees with whether the menu is open. */
    predicate InSync()
      reads this
    {
      toggleActive == linksShown
    }

    /** A click on the toggle flips both classes. */
    method OnToggleClick()
      modifies this
      ensures toggleActive == !old(toggleActive) && linksShown == !old(linksShown)
      ensures old(InSync()) ==> InSync()
    {
      toggleActive := !toggleActive;
      linksShown := !linksShown;
    }

    /**
     * A keydown anywhere in the document: Escape on an open menu clears both
     * classes; any other key, or Escape on a closed menu, changes nothing.
     */
    method OnKeyDown(key: string)
      modifies this
      ensures key == "Escape" && old(linksShown) ==> !toggleActive && !linksShown
      ensures !(key == "Escape" && old(linksShown)) ==>
        toggleActive == old(toggleActive) && linksShown == old(linksShown)
      ensures old(InSync()) ==> InSync()
    {
      if key == "Escape" {
        if linksShown {
          linksShown := false;
          toggleActive := false;
        }
      }
    }
  }

  /** What reaches the menu's handlers: a click on the toggle, or a key press. */
  datatype MenuEvent = ToggleClick | KeyDown(key: string)

  /**
   * Runs the handlers on a page that has just loaded: the two classes agree
   * after any sequence of events, and Escape always leaves the menu closed.
   */
  method RunMenu(events: seq<MenuEvent>) returns (toggleActive: bool, linksShown: bool)
    ensures toggleActive == linksShown
    ensures |events| > 0 && events[|events| - 1] == KeyDown("Escape") ==> !linksShown && !toggleActive
  {
    var menu := new MobileMenu();
    var i := 0;
    while i < |events|
      invariant 0 <= i <= |events|
      invariant menu.InSync()
      invariant i > 0 && events[i - 1] == KeyDown("Escape") ==> !menu.linksShown
    {
      match events[i] {
        case ToggleClick => menu.OnToggleClick();
        case KeyDown(key) => menu.OnKeyDown(key);
      }
      i := i + 1;
    }
    toggleActive, linksShown := menu.toggleActive, menu.linksShown;
  }
}
