/** The mobile navigation toggle (site/script.js:16-48): the open state is
    the "is-open" class on `[data-nav]`, mirrored into `aria-expanded` on
    `[data-nav-toggle]`. */
module Navigation {

  class Nav {
    /** Both `[data-nav]` and `[data-nav-toggle]` exist; otherwise
        `openNav` and `closeNav` return at once and no listener is added. */
    const present: bool
    /** `nav.classList.contains("is-open")`. */
    var isOpen: bool
    /** The toggle's `aria-expanded` attribute. */
    var ariaExpanded: string

    /** The class and the attribute agree. */
    ghost predicate Valid()
      reads this
    {
      ariaExpanded == (if isOpen then "true" else "false")
    }

    /** The page as loaded: closed, with `aria-expanded="false"`. */
    constructor (present: bool)
      ensures this.present == present
      ensures Valid() && !isOpen
    {
      this.present := present;
      isOpen := false;
      ariaExpanded := "false";
    }

    /** `closeNav`: closed whatever the state was, so calling it again
        changes nothing. */
    method CloseNav()
      modifies this
      ensures present ==> !isOpen && ariaExpanded == "false"
      ensures !present ==> isOpen == old(isOpen) && ariaExpanded == old(ariaExpanded)
      ensures old(Valid()) ==> Valid()
      ensures present ==> Valid()
    {
      if !present {
        return;
      }
      isOpen := false;
      ariaExpanded := "false";
    }

    /** `openNav`. */
    method OpenNav()
      modifies this
      ensures present ==> isOpen && ariaExpanded == "true"
      ensures !present ==> isOpen == old(isOpen) && ariaExpanded == old(ariaExpanded)
      ensures old(Valid()) ==> Valid()
      ensures present ==> Valid()
    {
      if !present {
        return;
      }
      isOpen := true;
      ariaExpanded := "true";
    }

    /** A click on the toggle flips the state. */
    method ToggleClick()
      requires Valid()
      modifies this
      ensures Valid()
      ensures isOpen == (if present then !old(isOpen) else old(isOpen))
    {
      if !present {
        return;
      }
      if isOpen {
        CloseNav();
      } else {
        OpenNav();
      }
    }

    /** A click anywhere in the document. `targetIsElement` is the
        `instanceof Element` guard, `insideNavOrToggle` the outcome of
        `nav.contains(target) || navToggle.contains(target)`. Only a click
        on an element outside both, while open, closes the menu. */
    method DocumentClick(targetIsElement: bool, insideNavOrToggle: bool)
      requires Valid()
      modifies this
      ensures Valid()
      ensures isOpen == (old(isOpen) && !(present && targetIsElement && !insideNavOrToggle))
    {
      if !present {
        return;
      }
      if !isOpen {
        return;
      }
      if !targetIsElement {
        return;
      }
      if insideNavOrToggle {
        return;
      }
      CloseNav();
    }

    /** A key press: Escape closes the menu, any other key does nothing. */
    method KeyDown(key: string)
      requires Valid()
      modifies this
      ensures Valid()
      ensures present && key == "Escape" ==> !isOpen
      ensures !(present && key == "Escape") ==> isOpen == old(isOpen)
    {
      if !present {
        return;
      }
      if key != "Escape" {
        return;
      }
      CloseNav();
    }
  }

  /** A click on the toggle also reaches the document listener, which sees
      a target inside the toggle: the pair of handlers flips the state. */
  method ToggleThenBubble(nav: Nav)
    requires nav.Valid()
    modifies nav
    ensures nav.Valid()
    ensures nav.isOpen == (if nav.present then !old(nav.isOpen) else old(nav.isOpen))
  {
    nav.ToggleClick();
    nav.DocumentClick(true, true);
  }

  /** Closing twice is closing once. */
  method CloseTwice(nav: Nav)
    requires nav.Valid()
    modifies nav
    ensures nav.Valid()
    ensures nav.isOpen == (old(nav.isOpen) && !nav.present)
  {
    nav.CloseNav();
    ghost var once := nav.isOpen;
    nav.CloseNav();
    assert nav.isOpen == once;
  }
}
