/**
 * assets/js/beta.js: the colour-scheme theme, the navbar scroll class, the
 * slide-over mobile menu, anchor scrolling, the stagger delays, the reveal
 * observer with its above-the-fold check, and the hero parallax guard.
 *
 * This script does not check that its elements exist before using them. A
 * handler that touches a missing element throws a TypeError at that point:
 * the writes before it stand and the rest are skipped. The methods below
 * model exactly that, reporting through `completed` whether the handler
 * ran to its end.
 */
module AssetsBeta {
  import opened Dom

  // ---------------------------------------------------------------------------
  // applyTheme
  // ---------------------------------------------------------------------------

  /** The theme a colour-scheme query result selects. */
  function ThemeName(prefersDark: bool): (t: string)
    ensures t == "dark" <==> prefersDark
    ensures t == "light" <==> !prefersDark
  {
    if prefersDark then "dark" else "light"
  }

  class Theme {
    var html: Element  // document.documentElement

    /** At load: data-theme from the query's current result. */
    constructor (html: Element, prefersDark: bool)
      ensures this.html == SetAttr(html, "data-theme", ThemeName(prefersDark))
      ensures Attr(this.html, "data-theme") == Some("dark") <==> prefersDark
    {
      this.html := SetAttr(html, "data-theme", ThemeName(prefersDark));
    }

    /** The query's change listener: data-theme follows the new result. */
    method OnChange(prefersDark: bool)
      modifies this
      ensures html == SetAttr(old(html), "data-theme", ThemeName(prefersDark))
      ensures Attr(html, "data-theme") == Some("dark") <==> prefersDark
    {
      html := SetAttr(html, "data-theme", ThemeName(prefersDark));
    }
  }

  // ---------------------------------------------------------------------------
  // Navbar scroll effect
  // ---------------------------------------------------------------------------

  const NavbarThreshold := 100

  class Navbar {
    var navbar: Option<Element>  // #navbar
    var lastScrollY: int

    constructor (navbar: Option<Element>, scrollY: int)
      ensures this.navbar == navbar && lastScrollY == scrollY
    {
      this.navbar := navbar;
      lastScrollY := scrollY;
    }

    /**
     * scrolled is present exactly when scrollY is past 100. Without #navbar
     * the listener throws before lastScrollY is written, so nothing changes.
     */
    method HandleScroll(scrollY: int)
      modifies this
      ensures old(navbar).None? ==> unchanged(this)
      ensures old(navbar).Some? ==>
        && navbar == (if scrollY > NavbarThreshold then AddClassesTo(old(navbar), {"scrolled"}) else RemoveClassesFrom(old(navbar), {"scrolled"}))
        && (HasClass(navbar.value, "scrolled") <==> scrollY > NavbarThreshold)
        && lastScrollY == scrollY
    {
      var currentScrollY := scrollY;
      if navbar.None? {
        return;
      }
      if currentScrollY > NavbarThreshold {
        navbar := AddClassesTo(navbar, {"scrolled"});
      } else {
        navbar := RemoveClassesFrom(navbar, {"scrolled"});
      }
      lastScrollY := currentScrollY;
    }
  }

  // ---------------------------------------------------------------------------
  // Slide-over mobile menu
  // ---------------------------------------------------------------------------

  class SlideMenu {
    var navMenu: Option<Element>     // #navMenu
    var menuToggle: Option<Element>  // #menuToggle
    var overlay: Option<Element>     // #mobileMenuOverlay
    var body: Element

    constructor (navMenu: Option<Element>, menuToggle: Option<Element>, overlay: Option<Element>, body: Element)
      ensures this.navMenu == navMenu && this.menuToggle == menuToggle && this.overlay == overlay && this.body == body
    {
      this.navMenu := navMenu;
      this.menuToggle := menuToggle;
      this.overlay := overlay;
      this.body := body;
    }

    predicate AllPresent()
      reads this
    {
      navMenu.Some? && menuToggle.Some? && overlay.Some?
    }

    predicate IsOpen()
      reads this
    {
      navMenu.Some? && HasClass(navMenu.value, "active")
    }

    /** On a complete page the toggle's and overlay's active classes and the scroll lock all follow #navMenu. */
    predicate InSync()
      reads this
    {
      AllPresent() ==>
        && HasClass(menuToggle.value, "active") == IsOpen()
        && HasClass(overlay.value, "active") == IsOpen()
        && Style(body, "overflow") == (if IsOpen() then "hidden" else "")
    }

    /**
     * The state after openMobileMenu (open == true) or closeMobileMenu
     * (open == false) from the given one: #navMenu, #menuToggle and the
     * overlay are written in that order, each only if every element before
     * it exists, and the body only if all three do.
     */
    predicate SetFrom(open: bool, menu0: Option<Element>, toggle0: Option<Element>, overlay0: Option<Element>, body0: Element)
      reads this
    {
      && navMenu == (if open then AddClassesTo(menu0, {"active"}) else RemoveClassesFrom(menu0, {"active"}))
      && menuToggle == (if menu0.None? then toggle0
                        else if open then AddClassesTo(toggle0, {"active"}) else RemoveClassesFrom(toggle0, {"active"}))
      && overlay == (if menu0.None? || toggle0.None? then overlay0
                     else if open then AddClassesTo(overlay0, {"active"}) else RemoveClassesFrom(overlay0, {"active"}))
      && body == (if menu0.None? || toggle0.None? || overlay0.None? then body0
                  else SetStyle(body0, "overflow", if open then "hidden" else ""))
    }

    method OpenMobileMenu() returns (completed: bool)
      modifies this
      ensures completed <==> old(AllPresent())
      ensures SetFrom(true, old(navMenu), old(menuToggle), old(overlay), old(body))
      ensures completed ==> IsOpen() && InSync()
    {
      if navMenu.None? { return false; }
      navMenu := AddClassesTo(navMenu, {"active"});
      if menuToggle.None? { return false; }
      menuToggle := AddClassesTo(menuToggle, {"active"});
      if overlay.None? { return false; }
      overlay := AddClassesTo(overlay, {"active"});
      body := SetStyle(body, "overflow", "hidden");
      return true;
    }

    /** closeMobileMenu; also the close button's, the overlay's and every navbar link's click listener. */
    method CloseMobileMenu() returns (completed: bool)
      modifies this
      ensures completed <==> old(AllPresent())
      ensures SetFrom(false, old(navMenu), old(menuToggle), old(overlay), old(body))
      ensures completed ==> !IsOpen() && InSync()
    {
      if navMenu.None? { return false; }
      navMenu := RemoveClassesFrom(navMenu, {"active"});
      if menuToggle.None? { return false; }
      menuToggle := RemoveClassesFrom(menuToggle, {"active"});
      if overlay.None? { return false; }
      overlay := RemoveClassesFrom(overlay, {"active"});
      body := SetStyle(body, "overflow", "");
      return true;
    }

    /** Closing an already closed menu changes nothing more. */
    method CloseTwice() returns (completed: bool)
      modifies this
      ensures completed <==> old(AllPresent())
      ensures SetFrom(false, old(navMenu), old(menuToggle), old(overlay), old(body))
    {
      completed := CloseMobileMenu();
      var again := CloseMobileMenu();
      if old(navMenu).Some? { RemoveClassesIdempotent(old(navMenu).value, {"active"}); }
      if old(menuToggle).Some? { RemoveClassesIdempotent(old(menuToggle).value, {"active"}); }
      if old(overlay).Some? { RemoveClassesIdempotent(old(overlay).value, {"active"}); }
      SetStyleIdempotent(old(body), "overflow", "");
    }

    /**
     * The toggle's click listener, installed only when #menuToggle exists:
     * it reads the open state from #navMenu (throwing without one) and
     * closes or opens accordingly.
     */
    method ToggleClick() returns (completed: bool)
      requires menuToggle.Some?
      modifies this
      ensures old(navMenu).None? ==> !completed && unchanged(this)
      ensures old(navMenu).Some? ==>
        && (completed <==> old(AllPresent()))
        && SetFrom(!old(IsOpen()), old(navMenu), old(menuToggle), old(overlay), old(body))
        && IsOpen() == !old(IsOpen())
      ensures completed ==> InSync()
    {
      if navMenu.None? {
        return false;
      }
      if HasClass(navMenu.value, "active") {
        completed := CloseMobileMenu();
      } else {
        completed := OpenMobileMenu();
      }
    }

    /** Escape closes the menu only while it is open; any other key changes nothing. */
    method HandleKeydown(key: string) returns (completed: bool)
      modifies this
      ensures key != "Escape" ==> completed && unchanged(this)
      ensures key == "Escape" && old(navMenu).None? ==> !completed && unchanged(this)
      ensures key == "Escape" && old(navMenu).Some? && !old(IsOpen()) ==> completed && unchanged(this)
      ensures key == "Escape" && old(IsOpen()) ==>
        (completed <==> old(AllPresent())) && SetFrom(false, old(navMenu), old(menuToggle), old(overlay), old(body))
    {
      if key != "Escape" {
        return true;
      }
      if navMenu.None? {
        return false;
      }
      if HasClass(navMenu.value, "active") {
        completed := CloseMobileMenu();
      } else {
        completed := true;
      }
    }
  }

  // ---------------------------------------------------------------------------
  // Anchor links
  // ---------------------------------------------------------------------------

  const AnchorOffset := 80

  /**
   * A click on an a[href^="#"]: a bare "#" and a missing target are left to
   * the browser; otherwise the default is prevented and the window scrolls
   * to the target's offsetTop less 80. The URL is not updated.
   */
  function AnchorClick(href: string, targetOffsetTop: Option<int>): (r: ClickEffect)
    ensures r.preventDefault <==> href != "#" && targetOffsetTop.Some?
    ensures !r.preventDefault ==> r == NoEffect
    ensures r.preventDefault ==> r.scrollTop == Some(targetOffsetTop.value - AnchorOffset) && r.pushedUrl.None?
  {
    if href == "#" then NoEffect
    else
      match targetOffsetTop
      case None => NoEffect
      case Some(top) => ClickEffect(true, Some(top - AnchorOffset), None)
  }

  // ---------------------------------------------------------------------------
  // Stagger delays
  // ---------------------------------------------------------------------------

  /**
   * One .stagger container: its .animate-on-scroll descendants, in document
   * order, each named by its index among all animated elements, get the
   * delay index * 0.1s, kept here as a count of tenths of a second.
   */
  function ApplyContainer(delays: map<nat, nat>, children: seq<nat>): map<nat, nat>
    decreases |children|
  {
    if children == [] then delays
    else ApplyContainer(delays, children[..|children| - 1])[children[|children| - 1] := |children| - 1]
  }

  /** Every container in document order; a later container overwrites an earlier one's delay. */
  function ApplyAll(delays: map<nat, nat>, containers: seq<seq<nat>>): map<nat, nat>
    decreases |containers|
  {
    if containers == [] then delays
    else ApplyContainer(ApplyAll(delays, containers[..|containers| - 1]), containers[|containers| - 1])
  }

  /** The position of the last occurrence of e in s. */
  function LastIndexOf(s: seq<nat>, e: nat): (r: nat)
    requires e in s
    ensures r < |s| && s[r] == e
    ensures forall k :: r < k < |s| ==> s[k] != e
    decreases |s|
  {
    if s[|s| - 1] == e then |s| - 1 else LastIndexOf(s[..|s| - 1], e)
  }

  /** Inside one container, an element's delay is its index there; elements outside keep theirs. */
  lemma {:induction false} ContainerDelay(delays: map<nat, nat>, children: seq<nat>, e: nat)
    ensures e in children ==> e in ApplyContainer(delays, children) && ApplyContainer(delays, children)[e] == LastIndexOf(children, e)
    ensures e !in children ==> (e in ApplyContainer(delays, children) <==> e in delays)
    ensures e !in children && e in delays ==> ApplyContainer(delays, children)[e] == delays[e]
    decreases |children|
  {
    if children != [] {
      var front := children[..|children| - 1];
      ContainerDelay(delays, front, e);
      assert children == front + [children[|children| - 1]];
    }
  }

  predicate Distinct(s: seq<nat>) {
    forall i, j :: 0 <= i < j < |s| ==> s[i] != s[j]
  }

  /**
   * querySelectorAll lists each element once, so the child at index i gets
   * exactly i tenths: the first child 0s, and later children strictly more.
   */
  lemma StaggerByIndex(delays: map<nat, nat>, children: seq<nat>, i: nat, j: nat)
    requires Distinct(children) && i < j < |children|
    ensures var d := ApplyContainer(delays, children);
      children[0] in d && children[i] in d && children[j] in d
      && d[children[0]] == 0 && d[children[i]] == i && d[children[i]] < d[children[j]]
  {
    ContainerDelay(delays, children, children[i]);
    ContainerDelay(delays, children, children[j]);
    ContainerDelay(delays, children, children[0]);
  }

  /** The last container, in document order, that holds e. */
  function LastContaining(containers: seq<seq<nat>>, e: nat): (r: Option<nat>)
    ensures r.Some? ==> r.value < |containers| && e in containers[r.value]
    ensures r.Some? ==> forall k :: r.value < k < |containers| ==> e !in containers[k]
    ensures r.None? ==> forall k :: 0 <= k < |containers| ==> e !in containers[k]
    decreases |containers|
  {
    if containers == [] then None
    else if e in containers[|containers| - 1] then Some(|containers| - 1)
    else LastContaining(containers[..|containers| - 1], e)
  }

  /** For nested containers the last one processed wins; an element in no container keeps its delay. */
  lemma {:induction false} StaggerLastContainerWins(delays: map<nat, nat>, containers: seq<seq<nat>>, e: nat)
    ensures match LastContaining(containers, e)
      case Some(c) => e in ApplyAll(delays, containers) && ApplyAll(delays, containers)[e] == LastIndexOf(containers[c], e)
      case None => (e in ApplyAll(delays, containers) <==> e in delays)
                   && (e in delays ==> ApplyAll(delays, containers)[e] == delays[e])
    decreases |containers|
  {
    if containers != [] {
      var front := containers[..|containers| - 1];
      var last := containers[|containers| - 1];
      StaggerLastContainerWins(delays, front, e);
      ContainerDelay(ApplyAll(delays, front), last, e);
      assert forall k :: 0 <= k < |front| ==> front[k] == containers[k];
    }
  }

  // ---------------------------------------------------------------------------
  // Reveal observer and above-the-fold check
  // ---------------------------------------------------------------------------

  /** The part of getBoundingClientRect the check reads. */
  datatype Rect = Rect(top: int, bottom: int)

  /** rect.top < 0.9 * innerHeight && rect.bottom > 0, in integers. */
  predicate AboveTheFold(r: Rect, innerHeight: int) {
    r.top * 10 < innerHeight * 9 && r.bottom > 0
  }

  class Animations {
    const elements: array<Element>  // .animate-on-scroll
    var observed: set<nat>
    var delayTenths: map<nat, nat>   // transitionDelay of each element, in tenths of a second

    constructor (elements: array<Element>)
      ensures this.elements == elements && observed == {} && delayTenths == map[]
    {
      this.elements := elements;
      observed := {};
      delayTenths := map[];
    }

    predicate Valid()
      reads this
    {
      forall i :: i in observed ==> i < elements.Length
    }

    /** The nested forEach over the .stagger containers and their animated children. */
    method ApplyStagger(containers: seq<seq<nat>>)
      modifies this
      ensures delayTenths == ApplyAll(old(delayTenths), containers)
      ensures observed == old(observed)
    {
      var c := 0;
      while c < |containers|
        invariant 0 <= c <= |containers|
        invariant delayTenths == ApplyAll(old(delayTenths), containers[..c])
        invariant observed == old(observed)
      {
        assert containers[..c + 1][..c] == containers[..c];
        var children := containers[c];
        ghost var start := delayTenths;
        var index := 0;
        while index < |children|
          invariant 0 <= index <= |children|
          invariant delayTenths == ApplyContainer(start, children[..index])
          invariant observed == old(observed)
        {
          assert children[..index + 1][..index] == children[..index];
          delayTenths := delayTenths[children[index] := index];
          index := index + 1;
        }
        assert children[..index] == children;
        c := c + 1;
      }
      assert containers[..c] == containers;
    }

    /** Every animated element is observed. */
    method ObserveAll()
      modifies this
      ensures Valid() && observed == Indices(elements.Length)
      ensures delayTenths == old(delayTenths)
    {
      observed := Indices(elements.Length);
    }

    /**
     * The observer callback: intersecting entries add visible. The element
     * stays observed, and a repeated entry adds nothing new.
     */
    method HandleIntersection(entries: seq<Entry>)
      requires Valid() && Delivered(entries, observed)
      modifies elements
      ensures forall i :: 0 <= i < elements.Length ==>
        elements[i] == if i in HitTargets(entries) then AddClasses(old(elements[i]), {"visible"}) else old(elements[i])
    {
      ghost var before := elements[..];
      var k := 0;
      while k < |entries|
        invariant 0 <= k <= |entries|
        invariant forall i :: 0 <= i < elements.Length ==>
          elements[i] == if i in HitTargets(entries[..k]) then AddClasses(before[i], {"visible"}) else before[i]
      {
        HitTargetsStep(entries, k);
        var entry := entries[k];
        if entry.isIntersecting {
          elements[entry.target] := AddClasses(elements[entry.target], {"visible"});
        }
        k := k + 1;
      }
      assert entries[..k] == entries;
    }

    /** The frame after DOMContentLoaded: every element already above the fold gets visible. */
    method CheckInitialViewport(rects: seq<Rect>, innerHeight: int)
      requires |rects| == elements.Length
      modifies elements
      ensures forall i :: 0 <= i < elements.Length ==>
        elements[i] == if AboveTheFold(rects[i], innerHeight) then AddClasses(old(elements[i]), {"visible"}) else old(elements[i])
    {
      ghost var before := elements[..];
      var i := 0;
      while i < elements.Length
        invariant 0 <= i <= elements.Length
        invariant forall j :: 0 <= j < i ==>
          elements[j] == if AboveTheFold(rects[j], innerHeight) then AddClasses(before[j], {"visible"}) else before[j]
        invariant forall j :: i <= j < elements.Length ==> elements[j] == before[j]
      {
        var rect := rects[i];
        if rect.top * 10 < innerHeight * 9 && rect.bottom > 0 {
          elements[i] := AddClasses(elements[i], {"visible"});
        }
        i := i + 1;
      }
    }
  }

  // ---------------------------------------------------------------------------
  // Hero parallax
  // ---------------------------------------------------------------------------

  /** Installed only when .hero-image img exists; the transform is recorded as the scrollY it was computed from. */
  class HeroParallax {
    var transformFrom: Option<int>

    constructor ()
      ensures transformFrom.None?
    {
      transformFrom := None;
    }

    /** The transform is written only while the page is scrolled less than one viewport height. */
    method HandleScroll(scrollY: int, innerHeight: int)
      modifies this
      ensures transformFrom == if scrollY < innerHeight then Some(scrollY) else old(transformFrom)
    {
      var scrolled := scrollY;
      if scrolled < innerHeight {
        transformFrom := Some(scrolled);
      }
    }
  }
}
