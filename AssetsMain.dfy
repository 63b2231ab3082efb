/**
 * assets/js/main.js: the navbar scroll class, the mobile menu with its
 * overlay, the anchor smooth-scroll, the reveal observer and the hero image
 * parallax. Each init function that returns early when an element is
 * missing becomes a class whose constructor takes the elements it found.
 */
module AssetsMain {
  import opened Dom

  // ---------------------------------------------------------------------------
  // initNavbar / updateNavbar
  // ---------------------------------------------------------------------------

  const NavbarThreshold := 80

  /** Exists only when #navbar does: initNavbar returns without listeners otherwise. */
  class Navbar {
    var navbar: Element
    var lastScrollY: int

    /** initNavbar: records the scroll position, then runs updateNavbar once. */
    constructor (navbar: Element, scrollY: int)
      ensures HasClass(this.navbar, "scrolled") <==> scrollY > NavbarThreshold
      ensures this.navbar == (if scrollY > NavbarThreshold then AddClasses(navbar, {"scrolled"}) else RemoveClasses(navbar, {"scrolled"}))
      ensures lastScrollY == scrollY
    {
      this.navbar := navbar;
      lastScrollY := scrollY;
      new;
      UpdateNavbar(scrollY);
    }

    /** scrolled is present exactly when scrollY is past 80; lastScrollY remembers the position. */
    method UpdateNavbar(scrollY: int)
      modifies this
      ensures HasClass(navbar, "scrolled") <==> scrollY > NavbarThreshold
      ensures navbar == (if scrollY > NavbarThreshold then AddClasses(old(navbar), {"scrolled"}) else RemoveClasses(old(navbar), {"scrolled"}))
      ensures lastScrollY == scrollY
    {
      var currentScrollY := scrollY;
      if currentScrollY > NavbarThreshold {
        navbar := AddClasses(navbar, {"scrolled"});
      } else {
        navbar := RemoveClasses(navbar, {"scrolled"});
      }
      lastScrollY := currentScrollY;
    }
  }

  // ---------------------------------------------------------------------------
  // initMobileMenu
  // ---------------------------------------------------------------------------

  const DesktopWidth := 1024

  /** Exists only when #menuToggle and #navMenu do; #menuOverlay is optional. */
  class MobileMenu {
    var menuToggle: Element
    var navMenu: Element
    var overlay: Option<Element>
    var body: Element

    constructor (menuToggle: Element, navMenu: Element, overlay: Option<Element>, body: Element)
      ensures this.menuToggle == menuToggle && this.navMenu == navMenu && this.overlay == overlay && this.body == body
    {
      this.menuToggle := menuToggle;
      this.navMenu := navMenu;
      this.overlay := overlay;
      this.body := body;
    }

    /** The open state is the active class of #navMenu, as toggleMenu and the listeners read it. */
    predicate IsOpen()
      reads this
    {
      HasClass(navMenu, "active")
    }

    /**
     * The five flags move together: the toggle's active class and
     * aria-expanded, the overlay's active class, the body scroll lock, and
     * the overlay's aria-hidden as the negation of aria-expanded.
     */
    predicate InSync()
      reads this
    {
      && HasClass(menuToggle, "active") == IsOpen()
      && Attr(menuToggle, "aria-expanded") == Some(BoolText(IsOpen()))
      && (overlay.Some? ==> HasClass(overlay.value, "active") == IsOpen())
      && (overlay.Some? ==> Attr(overlay.value, "aria-hidden") == Some(BoolText(!IsOpen())))
      && Style(body, "overflow") == (if IsOpen() then "hidden" else "")
    }

    /** The whole state after openMenu (open == true) or closeMenu (open == false), given the state before. */
    predicate SetFrom(open: bool, toggle0: Element, menu0: Element, overlay0: Option<Element>, body0: Element)
      reads this
    {
      && menuToggle == SetAttr(if open then AddClasses(toggle0, {"active"}) else RemoveClasses(toggle0, {"active"}), "aria-expanded", BoolText(open))
      && navMenu == (if open then AddClasses(menu0, {"active"}) else RemoveClasses(menu0, {"active"}))
      && overlay == (match overlay0
                     case None => None
                     case Some(o) => Some(SetAttr(if open then AddClasses(o, {"active"}) else RemoveClasses(o, {"active"}), "aria-hidden", BoolText(!open))))
      && body == SetStyle(body0, "overflow", if open then "hidden" else "")
    }

    method OpenMenu()
      modifies this
      ensures SetFrom(true, old(menuToggle), old(navMenu), old(overlay), old(body))
      ensures IsOpen() && InSync()
    {
      menuToggle := AddClasses(menuToggle, {"active"});
      menuToggle := SetAttr(menuToggle, "aria-expanded", "true");
      navMenu := AddClasses(navMenu, {"active"});
      if overlay.Some? {
        overlay := Some(AddClasses(overlay.value, {"active"}));
        overlay := Some(SetAttr(overlay.value, "aria-hidden", "false"));
      }
      body := SetStyle(body, "overflow", "hidden");
    }

    /** closeMenu; also the overlay's click listener. */
    method CloseMenu()
      modifies this
      ensures SetFrom(false, old(menuToggle), old(navMenu), old(overlay), old(body))
      ensures !IsOpen() && InSync()
    {
      menuToggle := RemoveClasses(menuToggle, {"active"});
      menuToggle := SetAttr(menuToggle, "aria-expanded", "false");
      navMenu := RemoveClasses(navMenu, {"active"});
      if overlay.Some? {
        overlay := Some(RemoveClasses(overlay.value, {"active"}));
        overlay := Some(SetAttr(overlay.value, "aria-hidden", "true"));
      }
      body := SetStyle(body, "overflow", "");
    }

    /** The toggle's click listener: each call flips the open state. */
    method ToggleMenu()
      modifies this
      ensures IsOpen() == !old(IsOpen())
      ensures SetFrom(IsOpen(), old(menuToggle), old(navMenu), old(overlay), old(body))
      ensures InSync()
    {
      var isOpen := HasClass(navMenu, "active");
      if isOpen {
        CloseMenu();
      } else {
        OpenMenu();
      }
    }

    /** A click on a link inside #navMenu closes the menu only at widths up to 1024. */
    method HandleLinkClick(innerWidth: int)
      modifies this
      ensures innerWidth <= DesktopWidth ==> SetFrom(false, old(menuToggle), old(navMenu), old(overlay), old(body)) && InSync()
      ensures innerWidth > DesktopWidth ==> unchanged(this)
    {
      if innerWidth <= DesktopWidth {
        CloseMenu();
      }
    }

    /** Escape closes the menu only while it is open (focus moving back to the toggle is not modelled). */
    method HandleKeydown(key: string)
      modifies this
      ensures key == "Escape" && old(IsOpen()) ==> SetFrom(false, old(menuToggle), old(navMenu), old(overlay), old(body)) && InSync()
      ensures !(key == "Escape" && old(IsOpen())) ==> unchanged(this)
    {
      if key == "Escape" && HasClass(navMenu, "active") {
        CloseMenu();
      }
    }

    /** A resize closes the menu only when it is open and the window is wider than 1024. */
    method HandleResize(innerWidth: int)
      modifies this
      ensures innerWidth > DesktopWidth && old(IsOpen()) ==> SetFrom(false, old(menuToggle), old(navMenu), old(overlay), old(body)) && InSync()
      ensures !(innerWidth > DesktopWidth && old(IsOpen())) ==> unchanged(this)
    {
      if innerWidth > DesktopWidth && HasClass(navMenu, "active") {
        CloseMenu();
      }
    }
  }

  // ---------------------------------------------------------------------------
  // initSmoothScroll
  // ---------------------------------------------------------------------------

  const DefaultNavbarHeight := 80

  /** document.getElementById('navbar')?.offsetHeight || 80 */
  function NavbarOffset(navbarHeight: Option<int>): (h: int)
    ensures navbarHeight.Some? && navbarHeight.value != 0 ==> h == navbarHeight.value
    ensures navbarHeight.None? || navbarHeight.value == 0 ==> h == DefaultNavbarHeight
  {
    match navbarHeight
    case Some(v) => if v != 0 then v else DefaultNavbarHeight
    case None => DefaultNavbarHeight
  }

  /**
   * A click on an a[href^="#"]. targetTop is the target's
   * getBoundingClientRect().top, None when href selects nothing; scrollY is
   * the scroll position and navbarHeight the offsetHeight of #navbar, None
   * when there is no #navbar.
   */
  function AnchorClick(href: string, targetTop: Option<int>, scrollY: int, navbarHeight: Option<int>): (r: ClickEffect)
    ensures r.preventDefault <==> href != "#" && targetTop.Some?
    ensures !r.preventDefault ==> r == NoEffect
    ensures r.preventDefault ==>
      && r.pushedUrl == Some(href)
      && r.scrollTop == Some(targetTop.value + scrollY - NavbarOffset(navbarHeight))
  {
    if href == "#" then NoEffect
    else
      match targetTop
      case None => NoEffect
      case Some(top) => ClickEffect(true, Some(top + scrollY - NavbarOffset(navbarHeight)), Some(href))
  }

  // ---------------------------------------------------------------------------
  // initScrollAnimations
  // ---------------------------------------------------------------------------

  class Reveal {
    const elements: array<Element>  // .animate-on-scroll
    var observed: set<nat>
    var observing: bool

    constructor (elements: array<Element>)
      ensures this.elements == elements && observed == {} && !observing
    {
      this.elements := elements;
      observed := {};
      observing := false;
    }

    predicate Valid()
      reads this
    {
      forall i :: i in observed ==> i < elements.Length
    }

    /** With no elements no observer is created; otherwise every element is observed. */
    method Init()
      requires Valid()
      modifies this
      ensures Valid()
      ensures elements.Length == 0 ==> unchanged(this)
      ensures elements.Length > 0 ==> observing && observed == Indices(elements.Length)
    {
      if elements.Length == 0 {
        return;
      }
      observing := true;
      observed := Indices(elements.Length);
    }

    /** An intersecting entry adds visible to its element and stops observing it. */
    method HandleIntersection(entries: seq<Entry>)
      requires Valid() && Delivered(entries, observed)
      modifies this, elements
      ensures Valid() && observing == old(observing)
      ensures observed == old(observed) - HitTargets(entries)
      ensures forall i :: 0 <= i < elements.Length ==>
        elements[i] == if i in HitTargets(entries) then AddClasses(old(elements[i]), {"visible"}) else old(elements[i])
    {
      var k := 0;
      while k < |entries|
        invariant 0 <= k <= |entries|
        invariant Valid() && observing == old(observing)
        invariant observed == old(observed) - HitTargets(entries[..k])
        invariant forall i :: 0 <= i < elements.Length ==>
          elements[i] == if i in HitTargets(entries[..k]) then AddClasses(old(elements[i]), {"visible"}) else old(elements[i])
      {
        HitTargetsStep(entries, k);
        var entry := entries[k];
        if entry.isIntersecting {
          elements[entry.target] := AddClasses(elements[entry.target], {"visible"});
          observed := observed - {entry.target};
        }
        k := k + 1;
      }
      assert entries[..k] == entries;
    }
  }

  // ---------------------------------------------------------------------------
  // initParallax
  // ---------------------------------------------------------------------------

  const ParallaxMinWidth := 968

  /**
   * The hero image parallax. The scroll listener is installed only when
   * .hero-image img exists and the window is at least 968 wide. A frame
   * finding no .hero returns before clearing ticking, so no frame is ever
   * scheduled again.
   */
  class Parallax {
    const installed: bool
    var ticking: bool
    var pendingFrames: nat
    var transformFrom: Option<int>  // the scrollY the hero image transform was computed from

    constructor (hasHeroImage: bool, innerWidth: int)
      ensures installed <==> hasHeroImage && innerWidth >= ParallaxMinWidth
      ensures !ticking && pendingFrames == 0 && transformFrom.None? && Valid()
    {
      installed := hasHeroImage && innerWidth >= ParallaxMinWidth;
      ticking := false;
      pendingFrames := 0;
      transformFrom := None;
    }

    /** At most one frame is pending, only while ticking, and nothing at all happens when not installed. */
    predicate Valid()
      reads this
    {
      && pendingFrames <= 1
      && (pendingFrames == 1 ==> ticking)
      && (!installed ==> !ticking && pendingFrames == 0 && transformFrom.None?)
    }

    method OnScroll()
      requires Valid()
      modifies this
      ensures Valid()
      ensures installed && !old(ticking) ==> ticking && pendingFrames == 1
      ensures !installed || old(ticking) ==> unchanged(this)
      ensures transformFrom == old(transformFrom)
    {
      if !installed {
        return;
      }
      if !ticking {
        pendingFrames := pendingFrames + 1;
        ticking := true;
      }
    }

    /** updateParallax. heroHeight is the offsetHeight of .hero, None when there is none. */
    method AnimationFrame(scrollY: int, heroHeight: Option<int>)
      requires Valid() && pendingFrames == 1
      modifies this
      ensures Valid() && pendingFrames == 0
      ensures ticking <==> heroHeight.None?
      ensures transformFrom == if heroHeight.Some? && scrollY < heroHeight.value then Some(scrollY) else old(transformFrom)
    {
      pendingFrames := pendingFrames - 1;
      if heroHeight.None? {
        return;
      }
      if scrollY < heroHeight.value {
        transformFrom := Some(scrollY);
      }
      ticking := false;
    }
  }

  /** After a frame that found no .hero, no number of scroll events schedules another frame. */
  method ScrollAfterStall(p: Parallax, n: nat)
    requires p.Valid() && p.ticking && p.pendingFrames == 0
    modifies p
    ensures unchanged(p)
  {
    var i := 0;
    while i < n
      invariant 0 <= i <= n && p.Valid()
      invariant unchanged(p)
    {
      p.OnScroll();
      i := i + 1;
    }
  }
}
