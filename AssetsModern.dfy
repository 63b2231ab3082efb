/**
 * assets/js/modern.js: the hamburger menu, the fade-in observer, the hero
 * parallax frame guard, the scroll indicator, the scroll-spy that marks the
 * navigation link of the current section, and the lazy image loader. The
 * script looks its elements up again on every event; here they are fields
 * of the object that handles the events.
 */
module AssetsModern {
  import opened Dom

  // ---------------------------------------------------------------------------
  // Menu: toggleMenu, the outside-click listener and the nav-link listener
  // ---------------------------------------------------------------------------

  class Menu {
    var nav: Option<Element>        // .modern-nav
    var navLinks: Option<Element>   // #navLinks
    var hamburger: Option<Element>  // .hamburger
    var body: Element

    constructor (nav: Option<Element>, navLinks: Option<Element>, hamburger: Option<Element>, body: Element)
      ensures this.nav == nav && this.navLinks == navLinks && this.hamburger == hamburger && this.body == body
    {
      this.nav := nav;
      this.navLinks := navLinks;
      this.hamburger := hamburger;
      this.body := body;
    }

    predicate IsOpen()
      reads this
    {
      navLinks.Some? && HasClass(navLinks.value, "active")
    }

    /** aria-expanded and the body scroll lock follow the active class of #navLinks. */
    predicate AriaAndScrollAgree()
      reads this
    {
      navLinks.Some? && hamburger.Some? ==>
        && Attr(hamburger.value, "aria-expanded") == Some(BoolText(IsOpen()))
        && Style(body, "overflow") == (if IsOpen() then "hidden" else "")
    }

    /** The hamburger's active class also agrees with #navLinks. */
    predicate InSync()
      reads this
    {
      && AriaAndScrollAgree()
      && (navLinks.Some? && hamburger.Some? ==> HasClass(hamburger.value, "active") == IsOpen())
    }

    /** The state both close listeners leave: active cleared on both, aria-expanded "false", scrolling unlocked. */
    predicate ClosedFrom(navLinks0: Option<Element>, hamburger0: Option<Element>, body0: Element)
      requires navLinks0.Some? && hamburger0.Some?
      reads this
    {
      && navLinks == Some(RemoveClasses(navLinks0.value, {"active"}))
      && hamburger == Some(SetAttr(RemoveClasses(hamburger0.value, {"active"}), "aria-expanded", "false"))
      && body == SetStyle(body0, "overflow", "")
    }

    /**
     * toggleMenu: both elements flip active, then aria-expanded and the body
     * scroll lock are set from the new state of #navLinks. Without either
     * element nothing happens.
     */
    method ToggleMenu()
      modifies this
      ensures nav == old(nav)
      ensures old(navLinks).None? || old(hamburger).None? ==> unchanged(this)
      ensures old(navLinks).Some? && old(hamburger).Some? ==>
        && IsOpen() == !old(IsOpen())
        && navLinks == Some(ToggleClass(old(navLinks).value, "active"))
        && hamburger == Some(SetAttr(ToggleClass(old(hamburger).value, "active"), "aria-expanded", BoolText(IsOpen())))
        && body == SetStyle(old(body), "overflow", if IsOpen() then "hidden" else "")
        && AriaAndScrollAgree()
      ensures old(InSync()) ==> InSync()
    {
      if navLinks.Some? && hamburger.Some? {
        navLinks := Some(ToggleClass(navLinks.value, "active"));
        hamburger := Some(ToggleClass(hamburger.value, "active"));
        var isExpanded := HasClass(navLinks.value, "active");
        hamburger := Some(SetAttr(hamburger.value, "aria-expanded", BoolText(isExpanded)));
        if isExpanded {
          body := SetStyle(body, "overflow", "hidden");
        } else {
          body := SetStyle(body, "overflow", "");
        }
      }
    }

    /**
     * The document click listener: the menu is closed only when .modern-nav,
     * #navLinks and .hamburger all exist, the click is outside .modern-nav and
     * the menu is open.
     */
    method HandleDocumentClick(inNav: bool)
      modifies this
      ensures nav == old(nav)
      ensures var guard := old(nav).Some? && old(navLinks).Some? && old(hamburger).Some? && !inNav && old(IsOpen());
        if guard then ClosedFrom(old(navLinks), old(hamburger), old(body)) && !IsOpen() && InSync()
        else unchanged(this)
    {
      if nav.Some? && navLinks.Some? && hamburger.Some? && !inNav && HasClass(navLinks.value, "active") {
        navLinks := Some(RemoveClasses(navLinks.value, {"active"}));
        hamburger := Some(RemoveClasses(hamburger.value, {"active"}));
        hamburger := Some(SetAttr(hamburger.value, "aria-expanded", "false"));
        body := SetStyle(body, "overflow", "");
      }
    }

    /** A click on any .nav-links a: the menu always ends closed when both elements exist, whatever it was before. */
    method HandleNavLinkClick()
      modifies this
      ensures nav == old(nav)
      ensures old(navLinks).Some? && old(hamburger).Some? ==>
        ClosedFrom(old(navLinks), old(hamburger), old(body)) && !IsOpen() && InSync()
      ensures old(navLinks).None? || old(hamburger).None? ==> unchanged(this)
    {
      if navLinks.Some? && hamburger.Some? {
        navLinks := Some(RemoveClasses(navLinks.value, {"active"}));
        hamburger := Some(RemoveClasses(hamburger.value, {"active"}));
        hamburger := Some(SetAttr(hamburger.value, "aria-expanded", "false"));
        body := SetStyle(body, "overflow", "");
      }
    }
  }

  // ---------------------------------------------------------------------------
  // Anchor links
  // ---------------------------------------------------------------------------

  const AnchorOffset := 150

  /**
   * A click on an a[href^="#"]: the default is always prevented, and the
   * window scrolls to the target's offsetTop less 150 only when the target
   * exists. targetOffsetTop is None when querySelector finds nothing.
   */
  function AnchorClick(targetOffsetTop: Option<int>): (r: ClickEffect)
    ensures r.preventDefault && r.pushedUrl.None?
    ensures r.scrollTop.Some? <==> targetOffsetTop.Some?
    ensures targetOffsetTop.Some? ==> r.scrollTop.value + AnchorOffset == targetOffsetTop.value
  {
    match targetOffsetTop
    case None => ClickEffect(true, None, None)
    case Some(top) => ClickEffect(true, Some(top - AnchorOffset), None)
  }

  // ---------------------------------------------------------------------------
  // Fade-in observer
  // ---------------------------------------------------------------------------

  /** The styles the set-up loop gives an element before observing it. */
  function Hidden(e: Element): (r: Element)
    ensures Style(r, "opacity") == "0" && Style(r, "transform") == "translateY(30px)"
    ensures Style(r, "transition") == "opacity 0.6s ease, transform 0.6s ease"
    ensures forall p :: p != "opacity" && p != "transform" && p != "transition" ==> Style(r, p) == Style(e, p)
    ensures r.classes == e.classes && r.attrs == e.attrs && r.text == e.text && r.value == e.value
  {
    SetStyle(SetStyle(SetStyle(e, "opacity", "0"), "transform", "translateY(30px)"), "transition", "opacity 0.6s ease, transform 0.6s ease")
  }

  /** The styles an intersecting entry gives its element. */
  function Shown(e: Element): (r: Element)
    ensures Style(r, "opacity") == "1" && Style(r, "transform") == "translateY(0)"
    ensures r.classes == e.classes && r.attrs == e.attrs
    ensures forall p :: p != "opacity" && p != "transform" ==> Style(r, p) == Style(e, p)
  {
    SetStyle(SetStyle(e, "opacity", "1"), "transform", "translateY(0)")
  }

  /** A second intersecting entry for a shown element changes nothing. */
  lemma ShownIdempotent(e: Element)
    ensures Shown(Shown(e)) == Shown(e)
  {
    var s := Shown(e);
    assert Shown(s).style == s.style;
  }

  class FadeIn {
    const elements: array<Element>  // .difference-card, .stat-card-modern, .status-item, .spotlight-feature
    var observed: set<nat>

    constructor (elements: array<Element>)
      ensures this.elements == elements && observed == {}
    {
      this.elements := elements;
      observed := {};
    }

    predicate Valid()
      reads this
    {
      forall i :: i in observed ==> i < elements.Length
    }

    /** Every element is hidden and observed; the observer is created whether or not there are elements. */
    method Setup()
      modifies this, elements
      ensures Valid() && observed == Indices(elements.Length)
      ensures forall i :: 0 <= i < elements.Length ==> elements[i] == Hidden(old(elements[i]))
    {
      observed := {};
      var i := 0;
      while i < elements.Length
        invariant 0 <= i <= elements.Length
        invariant observed == Indices(i)
        invariant forall j :: 0 <= j < i ==> elements[j] == Hidden(old(elements[j]))
        invariant forall j :: i <= j < elements.Length ==> elements[j] == old(elements[j])
      {
        Hide(i);
        observed := observed + {i};
        i := i + 1;
      }
    }

    /** The set-up loop's styles for one element. */
    method Hide(i: nat)
      requires i < elements.Length
      modifies elements
      ensures elements[i] == Hidden(old(elements[i]))
      ensures forall j :: 0 <= j < elements.Length && j != i ==> elements[j] == old(elements[j])
    {
      elements[i] := SetStyle(SetStyle(SetStyle(elements[i], "opacity", "0"), "transform", "translateY(30px)"),
                              "transition", "opacity 0.6s ease, transform 0.6s ease");
    }

    /**
     * The observer callback: intersecting entries show their element.
     * Nothing is unobserved, so a later entry for the same element shows it
     * again, which changes nothing.
     */
    method HandleIntersection(entries: seq<Entry>)
      requires Valid() && Delivered(entries, observed)
      modifies elements
      ensures forall i :: 0 <= i < elements.Length ==>
        elements[i] == if i in HitTargets(entries) then Shown(old(elements[i])) else old(elements[i])
    {
      ghost var before := elements[..];
      var k := 0;
      while k < |entries|
        invariant 0 <= k <= |entries|
        invariant forall i :: 0 <= i < elements.Length ==>
          elements[i] == if i in HitTargets(entries[..k]) then Shown(before[i]) else before[i]
      {
        HitTargetsStep(entries, k);
        var entry := entries[k];
        if entry.isIntersecting {
          ShownIdempotent(before[entry.target]);
          elements[entry.target] := Shown(elements[entry.target]);
        }
        k := k + 1;
      }
      assert entries[..k] == entries;
    }
  }

  // ---------------------------------------------------------------------------
  // Parallax
  // ---------------------------------------------------------------------------

  /**
   * The hero parallax. A scroll schedules an animation frame only while no
   * frame is pending; the frame moves the hero background when the scroll
   * position is within its height, and clears the pending flag. The
   * transform itself is recorded as the scroll position it was computed
   * from.
   */
  class Parallax {
    var ticking: bool
    var pendingFrames: nat
    var transformFrom: Option<int>

    constructor ()
      ensures !ticking && pendingFrames == 0 && transformFrom.None? && Valid()
    {
      ticking := false;
      pendingFrames := 0;
      transformFrom := None;
    }

    /** At most one frame is pending, and ticking says whether one is. */
    predicate Valid()
      reads this
    {
      pendingFrames <= 1 && (ticking <==> pendingFrames == 1)
    }

    method OnScroll()
      requires Valid()
      modifies this
      ensures Valid() && ticking && pendingFrames == 1
      ensures old(ticking) ==> unchanged(this)
      ensures transformFrom == old(transformFrom)
    {
      if !ticking {
        pendingFrames := pendingFrames + 1;
        ticking := true;
      }
    }

    /**
     * The frame callback. heroHeight is the offsetHeight of
     * .hero-background, None when there is none.
     */
    method AnimationFrame(pageYOffset: int, heroHeight: Option<int>)
      requires Valid() && pendingFrames == 1
      modifies this
      ensures Valid() && !ticking && pendingFrames == 0
      ensures transformFrom == if heroHeight.Some? && pageYOffset <= heroHeight.value then Some(pageYOffset) else old(transformFrom)
    {
      if heroHeight.Some? {
        var scrolled := pageYOffset;
        var limit := heroHeight.value;
        if scrolled <= limit {
          transformFrom := Some(scrolled);
        }
      }
      ticking := false;
      pendingFrames := pendingFrames - 1;
    }
  }

  /** Any number of scroll events between two frames leaves exactly one frame pending. */
  method ScrollBurst(p: Parallax, n: nat)
    requires p.Valid()
    modifies p
    ensures p.Valid()
    ensures n > 0 ==> p.ticking && p.pendingFrames == 1
    ensures n == 0 ==> unchanged(p)
    ensures p.transformFrom == old(p.transformFrom)
  {
    var i := 0;
    while i < n
      invariant 0 <= i <= n && p.Valid()
      invariant i > 0 ==> p.ticking && p.pendingFrames == 1
      invariant i == 0 ==> unchanged(p)
      invariant p.transformFrom == old(p.transformFrom)
    {
      p.OnScroll();
      i := i + 1;
    }
  }

  // ---------------------------------------------------------------------------
  // Scroll indicator
  // ---------------------------------------------------------------------------

  const IndicatorThreshold := 100

  class ScrollIndicator {
    var indicator: Option<Element>  // .scroll-indicator

    constructor (indicator: Option<Element>)
      ensures this.indicator == indicator
    {
      this.indicator := indicator;
    }

    /** Opacity "0" exactly when the page is scrolled past 100, "1" otherwise; no indicator, no change. */
    method HandleScroll(pageYOffset: int)
      modifies this
      ensures indicator.Some? == old(indicator).Some?
      ensures indicator.Some? ==> indicator.value == SetStyle(old(indicator).value, "opacity", if pageYOffset > IndicatorThreshold then "0" else "1")
      ensures indicator.Some? ==> (Style(indicator.value, "opacity") == "0" <==> pageYOffset > IndicatorThreshold)
      ensures indicator.Some? ==> (Style(indicator.value, "opacity") == "1" <==> pageYOffset <= IndicatorThreshold)
    {
      if indicator.Some? && pageYOffset > IndicatorThreshold {
        indicator := Some(SetStyle(indicator.value, "opacity", "0"));
      } else if indicator.Some? {
        indicator := Some(SetStyle(indicator.value, "opacity", "1"));
      }
    }
  }

  // ---------------------------------------------------------------------------
  // Scroll-spy
  // ---------------------------------------------------------------------------

  /** A section[id]: its id attribute and its offsetTop. */
  datatype Section = Section(id: string, offsetTop: int)

  const SpyOffset := 200

  predicate Reached(s: Section, pageYOffset: int) {
    pageYOffset >= s.offsetTop - SpyOffset
  }

  /** The index of the last section, in document order, that the page has scrolled to. */
  function LastReached(sections: seq<Section>, pageYOffset: int): (r: Option<nat>)
    ensures r.Some? ==> r.value < |sections| && Reached(sections[r.value], pageYOffset)
    decreases |sections|
  {
    if sections == [] then None
    else if Reached(sections[|sections| - 1], pageYOffset) then Some(|sections| - 1)
    else LastReached(sections[..|sections| - 1], pageYOffset)
  }

  /** The id of that section, or "" when no section is reached. */
  function CurrentId(sections: seq<Section>, pageYOffset: int): string {
    match LastReached(sections, pageYOffset)
    case None => ""
    case Some(k) => sections[k].id
  }

  /** LastReached names a reached section with no reached section after it, and is None only when none is reached. */
  lemma {:induction false} LastReachedMeaning(sections: seq<Section>, pageYOffset: int)
    ensures LastReached(sections, pageYOffset).None? <==> forall k :: 0 <= k < |sections| ==> !Reached(sections[k], pageYOffset)
    ensures LastReached(sections, pageYOffset).Some? ==>
      forall k :: LastReached(sections, pageYOffset).value < k < |sections| ==> !Reached(sections[k], pageYOffset)
    decreases |sections|
  {
    if sections != [] {
      var front := sections[..|sections| - 1];
      LastReachedMeaning(front, pageYOffset);
      assert forall k :: 0 <= k < |front| ==> front[k] == sections[k];
    }
  }

  /** The scroll listener's first loop: current ends as the id of the last reached section, or "". */
  method CurrentSection(sections: seq<Section>, pageYOffset: int) returns (current: string)
    ensures current == CurrentId(sections, pageYOffset)
  {
    current := "";
    var i := 0;
    while i < |sections|
      invariant 0 <= i <= |sections|
      invariant current == CurrentId(sections[..i], pageYOffset)
    {
      assert sections[..i + 1][..i] == sections[..i];
      if pageYOffset >= sections[i].offsetTop - SpyOffset {
        current := sections[i].id;
      }
      i := i + 1;
    }
    assert sections[..i] == sections;
  }

  /** href.slice(1): the string without its first character, "" for "". */
  function DropFirst(s: string): string {
    if |s| == 0 then "" else s[1..]
  }

  /** A link is the current one when its href without the leading "#" is current. */
  predicate LinkMatches(link: Element, current: string) {
    match Attr(link, "href")
    case Some(h) => DropFirst(h) == current
    case None => false
  }

  /** The scroll listener's second loop: every link loses active, then the matching links get it back. */
  method HighlightNavLinks(links: array<Element>, current: string)
    modifies links
    ensures forall i :: 0 <= i < links.Length ==>
      links[i] == if LinkMatches(old(links[i]), current) then AddClasses(RemoveClasses(old(links[i]), {"active"}), {"active"})
                  else RemoveClasses(old(links[i]), {"active"})
    ensures forall i :: 0 <= i < links.Length ==> (HasClass(links[i], "active") <==> LinkMatches(old(links[i]), current))
  {
    ghost var before := links[..];
    var i := 0;
    while i < links.Length
      invariant 0 <= i <= links.Length
      invariant forall j :: 0 <= j < i ==>
        links[j] == if LinkMatches(before[j], current) then AddClasses(RemoveClasses(before[j], {"active"}), {"active"})
                    else RemoveClasses(before[j], {"active"})
      invariant forall j :: i <= j < links.Length ==> links[j] == before[j]
    {
      links[i] := RemoveClasses(links[i], {"active"});
      if LinkMatches(links[i], current) {
        links[i] := AddClasses(links[i], {"active"});
      }
      i := i + 1;
    }
  }

  /** The whole scroll-spy listener: exactly the links whose href names the last reached section are active. */
  method HandleSpyScroll(sections: seq<Section>, links: array<Element>, pageYOffset: int)
    modifies links
    ensures forall i :: 0 <= i < links.Length ==>
      (HasClass(links[i], "active") <==> LinkMatches(old(links[i]), CurrentId(sections, pageYOffset)))
    ensures forall i :: 0 <= i < links.Length ==>
      links[i] == if LinkMatches(old(links[i]), CurrentId(sections, pageYOffset)) then AddClasses(RemoveClasses(old(links[i]), {"active"}), {"active"})
                  else RemoveClasses(old(links[i]), {"active"})
  {
    var current := CurrentSection(sections, pageYOffset);
    HighlightNavLinks(links, current);
  }

  /** When no section is reached, a bare "#" link is the one marked active. */
  lemma BareHashActiveAtTop(sections: seq<Section>, pageYOffset: int, link: Element)
    requires forall k :: 0 <= k < |sections| ==> !Reached(sections[k], pageYOffset)
    requires Attr(link, "href") == Some("#")
    ensures LinkMatches(link, CurrentId(sections, pageYOffset))
  {
    LastReachedMeaning(sections, pageYOffset);
  }

  // ---------------------------------------------------------------------------
  // Lazy images
  // ---------------------------------------------------------------------------

  /** An intersecting img: a non-empty data-src becomes its src and data-src is removed; otherwise nothing changes. */
  function Loaded(img: Element): (r: Element)
    ensures match Attr(img, "data-src")
      case Some(v) => if v != "" then Attr(r, "src") == Some(v) && Attr(r, "data-src").None? else r == img
      case None => r == img
    ensures forall a :: a != "src" && a != "data-src" ==> Attr(r, a) == Attr(img, a)
    ensures r.classes == img.classes && r.style == img.style && r.text == img.text && r.value == img.value
  {
    match Attr(img, "data-src")
    case Some(v) => if v != "" then RemoveAttr(SetAttr(img, "src", v), "data-src") else img
    case None => img
  }

  /** The swap happens once: loading a loaded image changes nothing. */
  lemma LoadedIdempotent(img: Element)
    ensures Loaded(Loaded(img)) == Loaded(img)
  {
    match Attr(img, "data-src")
    case Some(v) =>
      if v != "" {
        assert Attr(Loaded(img), "data-src").None?;
      }
    case None =>
  }

  class LazyImages {
    const images: array<Element>  // img[data-src]
    var observed: set<nat>

    constructor (images: array<Element>)
      ensures this.images == images && observed == {}
    {
      this.images := images;
      observed := {};
    }

    predicate Valid()
      reads this
    {
      forall i :: i in observed ==> i < images.Length
    }

    /** Without IntersectionObserver nothing is set up; otherwise every img[data-src] is observed. */
    method Init(hasIntersectionObserver: bool)
      requires Valid()
      modifies this
      ensures Valid()
      ensures observed == if hasIntersectionObserver then Indices(images.Length) else old(observed)
    {
      if hasIntersectionObserver {
        observed := Indices(images.Length);
      }
    }

    /** The callback's body for one intersecting img: a non-empty data-src is moved to src. */
    method LoadImage(i: nat)
      requires i < images.Length
      modifies images
      ensures images[i] == Loaded(old(images[i]))
      ensures forall j :: 0 <= j < images.Length && j != i ==> images[j] == old(images[j])
    {
      var img := images[i];
      var src := Attr(img, "data-src");
      if src.Some? && src.value != "" {
        images[i] := RemoveAttr(SetAttr(img, "src", src.value), "data-src");
      }
    }

    /**
     * The observer callback: every intersecting image is loaded and no
     * longer observed, so no later batch can load it again.
     */
    method HandleIntersection(entries: seq<Entry>)
      requires Valid() && Delivered(entries, observed)
      modifies this, images
      ensures Valid()
      ensures observed == old(observed) - HitTargets(entries)
      ensures forall i :: 0 <= i < images.Length ==>
        images[i] == if i in HitTargets(entries) then Loaded(old(images[i])) else old(images[i])
    {
      ghost var before := images[..];
      var k := 0;
      while k < |entries|
        invariant 0 <= k <= |entries|
        invariant Valid()
        invariant observed == old(observed) - HitTargets(entries[..k])
        invariant forall i :: 0 <= i < images.Length ==>
          images[i] == if i in HitTargets(entries[..k]) then Loaded(before[i]) else before[i]
      {
        HitTargetsStep(entries, k);
        var entry := entries[k];
        if entry.isIntersecting {
          var t := entry.target;
          if t in HitTargets(entries[..k]) {
            LoadedIdempotent(before[t]);
          }
          LoadImage(t);
          observed := observed - {t};
        }
        k := k + 1;
      }
      assert entries[..k] == entries;
    }
  }
}
