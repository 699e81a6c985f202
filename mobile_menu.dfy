/** The mobile navigation menu: the toggle button, the links inside the menu,
    clicks elsewhere on the page, the Escape key and resizing to desktop
    width. */
module MobileMenu {

  /** The class of the toggle's `<i>` icon: `fas fa-bars` or `fas fa-times`. */
  datatype Icon = Bars | Times

  /** The width from which a resize closes the menu. */
  const DesktopWidth := 768

  /** The icon `toggleMobileMenu` shows for a menu that is open or not. */
  function IconFor(open: bool): Icon {
    if open then Times else Bars
  }

  /** The menu's state: the closure variable `isMenuOpen` of
      `initMobileMenu`, the `active` class on `#mobile-menu` (the menu is
      visible exactly when it is present) and the toggle's icon. */
  class Menu {
    var isMenuOpen: bool
    var active: bool
    var icon: Icon

    /** The page as loaded: closed, with the bars icon. */
    constructor ()
      ensures !isMenuOpen && !active && icon == Bars
    {
      isMenuOpen := false;
      active := false;
      icon := Bars;
    }

    /** The flag, the class and the icon tell the same story. */
    predicate InSync()
      reads this
    {
      active == isMenuOpen && icon == IconFor(isMenuOpen)
    }

    /** `toggleMobileMenu`: flip the flag and make the class and the icon
        follow it, whatever the class was before. */
    method Toggle()
      modifies this
      ensures isMenuOpen == !old(isMenuOpen)
      ensures active == isMenuOpen && icon == IconFor(isMenuOpen)
      ensures InSync()
    {
      isMenuOpen := !isMenuOpen;
      active := isMenuOpen;
      icon := IconFor(isMenuOpen);
    }

    /** `closeMobileMenu`: flag and class both cleared, bars icon. */
    method Close()
      modifies this
      ensures !isMenuOpen && !active && icon == Bars
      ensures InSync()
    {
      isMenuOpen := false;
      active := false;
      icon := Bars;
    }

    /** The document's click listener: it closes the menu only when the flag
        says it is open and the target lies outside both the menu and the
        toggle; otherwise nothing changes. */
    method OnDocumentClick(targetInMenu: bool, targetInToggle: bool)
      modifies this
      ensures old(isMenuOpen) && !targetInMenu && !targetInToggle ==>
        !isMenuOpen && !active && icon == Bars
      ensures !(old(isMenuOpen) && !targetInMenu && !targetInToggle) ==>
        isMenuOpen == old(isMenuOpen) && active == old(active) && icon == old(icon)
      ensures old(InSync()) ==> InSync()
    {
      if isMenuOpen && !targetInMenu && !targetInToggle {
        Close();
      }
    }

    /** A click on the toggle: its own listener toggles, then the click
        reaches the document listener with a target inside the toggle, which
        leaves the menu alone. */
    method OnToggleClick()
      modifies this
      ensures isMenuOpen == !old(isMenuOpen)
      ensures active == isMenuOpen && icon == IconFor(isMenuOpen)
    {
      Toggle();
      OnDocumentClick(false, true);
    }

    /** A click on a `.mobile-nav-link`: its listener closes the menu, then
        the document listener, with a target inside the menu, does nothing. */
    method OnMobileLinkClick()
      modifies this
      ensures !isMenuOpen && !active && icon == Bars
    {
      Close();
      OnDocumentClick(true, false);
    }

    /** The document's keydown listener as written: Escape on a visible menu
        removes the class and resets the icon, but cannot reach `isMenuOpen`,
        which keeps its value; an open, synchronised menu is left out of
        sync. */
    method OnKeyDown(key: string)
      modifies this
      ensures isMenuOpen == old(isMenuOpen)
      ensures key == "Escape" && old(active) ==> !active && icon == Bars
      ensures !(key == "Escape" && old(active)) ==> active == old(active) && icon == old(icon)
      ensures key == "Escape" && old(InSync()) && old(isMenuOpen) ==> !InSync()
    {
      if key == "Escape" {
        if active {
          active := false;
          icon := Bars;
        }
      }
    }

    /** The (debounced) resize listener as written: at desktop width the
        class is removed and the icon reset, and `isMenuOpen` again keeps its
        value. */
    method OnResize(innerWidth: int)
      modifies this
      ensures isMenuOpen == old(isMenuOpen)
      ensures innerWidth >= DesktopWidth ==> !active && icon == Bars
      ensures innerWidth < DesktopWidth ==> active == old(active) && icon == old(icon)
      ensures innerWidth >= DesktopWidth && old(isMenuOpen) ==> !InSync()
    {
      if innerWidth >= DesktopWidth {
        active := false;
        icon := Bars;
      }
    }

    /** The keydown listener as evidently intended: Escape on a visible menu
        closes it through `closeMobileMenu`, so the flag follows the class. */
    method OnKeyDownClosing(key: string)
      modifies this
      ensures key == "Escape" && old(active) ==> !isMenuOpen && !active && icon == Bars
      ensures !(key == "Escape" && old(active)) ==>
        isMenuOpen == old(isMenuOpen) && active == old(active) && icon == old(icon)
      ensures old(InSync()) ==> InSync()
    {
      if key == "Escape" && active {
        Close();
      }
    }

    /** The resize listener as evidently intended: at desktop width the menu
        is closed through `closeMobileMenu`. */
    method OnResizeClosing(innerWidth: int)
      modifies this
      ensures innerWidth >= DesktopWidth ==> !isMenuOpen && !active && icon == Bars
      ensures innerWidth < DesktopWidth ==>
        isMenuOpen == old(isMenuOpen) && active == old(active) && icon == old(icon)
      ensures old(InSync()) ==> InSync()
    {
      if innerWidth >= DesktopWidth {
        Close();
      }
    }
  }

  /** With the handlers as written: open the menu, press Escape, click the
      toggle to open it again. The click clears the stale flag instead, so
      the menu stays hidden (`shown` is false) and only a second click opens
      it. */
  method ReopenAfterEscape() returns (shown: bool)
    ensures !shown
  {
    var menu := new Menu();
    menu.OnToggleClick();
    menu.OnKeyDown("Escape");
    menu.OnToggleClick();
    shown := menu.active;
  }

  /** The same steps with the intended Escape handler: the click on the
      toggle opens the menu again. */
  method ReopenAfterEscapeClosing() returns (shown: bool)
    ensures shown
  {
    var menu := new Menu();
    menu.OnToggleClick();
    menu.OnKeyDownClosing("Escape");
    menu.OnToggleClick();
    shown := menu.active;
  }

  /** The same with a resize to desktop width and back to a narrow width,
      where the toggle is on screen again, as written: the next click on the
      toggle leaves the menu hidden. */
  method ReopenAfterResize(wide: int, narrow: int) returns (shown: bool)
    requires wide >= DesktopWidth && narrow < DesktopWidth
    ensures !shown
  {
    var menu := new Menu();
    menu.OnToggleClick();
    menu.OnResize(wide);
    menu.OnResize(narrow);
    menu.OnToggleClick();
    shown := menu.active;
  }

  /** And with the intended resize handler: the click opens the menu. */
  method ReopenAfterResizeClosing(wide: int, narrow: int) returns (shown: bool)
    requires wide >= DesktopWidth && narrow < DesktopWidth
    ensures shown
  {
    var menu := new Menu();
    menu.OnToggleClick();
    menu.OnResizeClosing(wide);
    menu.OnResizeClosing(narrow);
    menu.OnToggleClick();
    shown := menu.active;
  }
}
