/**
 * beta/assets/js/main.js: the mobile menu, the sticky navigation, the
 * smooth-scroll click filter, the scroll animations, the statistics counter
 * and the form handler's required-field check. Each closure module of the
 * script becomes a class whose fields are the elements it captured and the
 * variables it updates.
 */
module BetaAssetsMain {
  import opened Dom
  import opened JsText
  import opened NumberFormat

  // ---------------------------------------------------------------------------
  // MobileMenu
  // ---------------------------------------------------------------------------

  class MobileMenu {
    var button: Option<Element>  // [data-mobile-menu-toggle]
    var menu: Option<Element>    // [data-mobile-menu]
    var body: Element
    var isOpen: bool

    constructor (button: Option<Element>, menu: Option<Element>, body: Element)
      ensures this.button == button && this.menu == menu && this.body == body
      ensures !isOpen
    {
      this.button := button;
      this.menu := menu;
      this.body := body;
      isOpen := false;
    }

    /** The menu's active and open classes, the button's active class and the body scroll lock all agree with isOpen. */
    predicate InSync()
      reads this
    {
      && Style(body, "overflow") == (if isOpen then "hidden" else "")
      && (menu.Some? ==> HasClass(menu.value, "active") == isOpen && HasClass(menu.value, "open") == isOpen)
      && (button.Some? ==> HasClass(button.value, "active") == isOpen)
    }

    /** The state close() leaves behind, given the state before it. */
    predicate ClosedFrom(button0: Option<Element>, menu0: Option<Element>, body0: Element)
      reads this
    {
      && !isOpen
      && menu == RemoveClassesFrom(menu0, {"active", "open"})
      && button == RemoveClassesFrom(button0, {"active"})
      && body == SetStyle(body0, "overflow", "")
    }

    method Open()
      modifies this
      ensures isOpen && InSync()
      ensures menu == AddClassesTo(old(menu), {"active", "open"})
      ensures button == AddClassesTo(old(button), {"active"})
      ensures body == SetStyle(old(body), "overflow", "hidden")
    {
      menu := AddClassesTo(menu, {"active", "open"});
      button := AddClassesTo(button, {"active"});
      body := SetStyle(body, "overflow", "hidden");
      isOpen := true;
    }

    method Close()
      modifies this
      ensures ClosedFrom(old(button), old(menu), old(body))
      ensures InSync()
    {
      menu := RemoveClassesFrom(menu, {"active", "open"});
      button := RemoveClassesFrom(button, {"active"});
      body := SetStyle(body, "overflow", "");
      isOpen := false;
    }

    /** Opening an open menu changes nothing: the second call leaves the state the first one made. */
    method OpenTwice()
      modifies this
      ensures isOpen && InSync()
      ensures menu == AddClassesTo(old(menu), {"active", "open"})
      ensures button == AddClassesTo(old(button), {"active"})
      ensures body == SetStyle(old(body), "overflow", "hidden")
    {
      Open();
      ghost var menu1, button1, body1 := menu, button, body;
      Open();
      if menu1.Some? {
        AddClassesIdempotent(old(menu).value, {"active", "open"});
      }
      if button1.Some? {
        AddClassesIdempotent(old(button).value, {"active"});
      }
      SetStyleIdempotent(old(body), "overflow", "hidden");
    }

    /** Closing a closed menu changes nothing: the second call leaves the state the first one made. */
    method CloseTwice()
      modifies this
      ensures ClosedFrom(old(button), old(menu), old(body))
      ensures InSync()
    {
      Close();
      Close();
      if old(menu).Some? {
        RemoveClassesIdempotent(old(menu).value, {"active", "open"});
      }
      if old(button).Some? {
        RemoveClassesIdempotent(old(button).value, {"active"});
      }
      SetStyleIdempotent(old(body), "overflow", "");
    }

    /** Flips isOpen, then opens or closes to match. */
    method Toggle()
      modifies this
      ensures isOpen == !old(isOpen)
      ensures InSync()
      ensures isOpen ==>
        && menu == AddClassesTo(old(menu), {"active", "open"}) && button == AddClassesTo(old(button), {"active"})
        && body == SetStyle(old(body), "overflow", "hidden")
      ensures !isOpen ==> ClosedFrom(old(button), old(menu), old(body))
    {
      isOpen := !isOpen;
      if isOpen {
        Open();
      } else {
        Close();
      }
    }

    /**
     * The document click listener. The click's target is described by
     * whether it lies inside the menu and inside the button; a missing
     * button contains nothing.
     */
    method HandleOutsideClick(inMenu: bool, inButton: bool)
      modifies this
      ensures var outside := old(isOpen) && old(menu).Some? && !inMenu && !(old(button).Some? && inButton);
        if outside then ClosedFrom(old(button), old(menu), old(body)) && InSync() else unchanged(this)
    {
      if isOpen && menu.Some? && !inMenu && !(button.Some? && inButton) {
        Close();
      }
    }

    /** The keydown listener: Escape closes an open menu and nothing else happens. */
    method HandleKeydown(key: string)
      modifies this
      ensures if key == "Escape" && old(isOpen) then ClosedFrom(old(button), old(menu), old(body)) && InSync() else unchanged(this)
    {
      if key == "Escape" && isOpen {
        Close();
      }
    }
  }

  // ---------------------------------------------------------------------------
  // StickyNav
  // ---------------------------------------------------------------------------

  const StickyThreshold := 50

  class StickyNav {
    var nav: Option<Element>  // [data-nav], else nav, else header

    constructor (nav: Option<Element>)
      ensures this.nav == nav
    {
      this.nav := nav;
    }

    /** scrolled and sticky are present exactly when the scroll position is past 50; at exactly 50 they are removed. */
    method HandleScroll(scrollPosition: int)
      modifies this
      ensures nav.Some? == old(nav).Some?
      ensures nav.Some? ==> (HasClass(nav.value, "scrolled") <==> scrollPosition > StickyThreshold)
      ensures nav.Some? ==> (HasClass(nav.value, "sticky") <==> scrollPosition > StickyThreshold)
      ensures nav == if scrollPosition > StickyThreshold then AddClassesTo(old(nav), {"scrolled", "sticky"})
                     else RemoveClassesFrom(old(nav), {"scrolled", "sticky"})
    {
      if nav.None? {
        return;
      }
      if scrollPosition > StickyThreshold {
        nav := AddClassesTo(nav, {"scrolled", "sticky"});
      } else {
        nav := RemoveClassesFrom(nav, {"scrolled", "sticky"});
      }
    }
  }

  // ---------------------------------------------------------------------------
  // SmoothScroll
  // ---------------------------------------------------------------------------

  const NavHeight := 80

  /**
   * The document click listener. link is the href of the closest
   * a[href^="#"] around the click's target (None when there is none),
   * targetTop the top of the element that href selects in viewport
   * coordinates (None when nothing matches), pageYOffset the scroll position
   * and hasPushState whether history.pushState exists.
   */
  function HandleClick(link: Option<string>, targetTop: Option<int>, pageYOffset: int, hasPushState: bool): (r: ClickEffect)
    ensures r.preventDefault <==> link.Some? && link.value !in {"", "#", "#!"} && targetTop.Some?
    ensures r.preventDefault ==> r.scrollTop == Some(targetTop.value + pageYOffset - NavHeight)
    ensures r.preventDefault ==> (r.pushedUrl.Some? <==> hasPushState) && (hasPushState ==> r.pushedUrl == link)
    ensures !r.preventDefault ==> r == NoEffect
  {
    match link
    case None => NoEffect
    case Some(href) =>
      if href == "" || href == "#" || href == "#!" then NoEffect
      else
        match targetTop
        case None => NoEffect
        case Some(top) => ClickEffect(true, Some(top + pageYOffset - NavHeight), if hasPushState then Some(href) else None)
  }

  // ---------------------------------------------------------------------------
  // ScrollAnimations
  // ---------------------------------------------------------------------------

  const RevealClasses: set<string> := {"animated", "visible", "in-view"}

  class ScrollAnimations {
    const elements: array<Element>  // [data-animate], .fade-in, .slide-up, .animate-on-scroll
    var observed: set<nat>
    var observing: bool  // an IntersectionObserver has been created

    constructor (elements: array<Element>)
      ensures this.elements == elements && observed == {} && !observing
    {
      this.elements := elements;
      observed := {};
      observing := false;
    }

    predicate Valid()
      reads this
    {
      forall i :: i in observed ==> i < elements.Length
    }

    /**
     * With no elements nothing happens. Without IntersectionObserver every
     * element is revealed at once; otherwise every element is observed.
     */
    method Init(hasIntersectionObserver: bool)
      modifies this, elements
      ensures Valid()
      ensures elements.Length == 0 ==> observed == old(observed) && observing == old(observing)
      ensures elements.Length > 0 && !hasIntersectionObserver ==>
        observed == old(observed) && observing == old(observing)
        && forall i :: 0 <= i < elements.Length ==> elements[i] == AddClasses(old(elements[i]), RevealClasses)
      ensures elements.Length > 0 && hasIntersectionObserver ==>
        observing && observed == Indices(elements.Length) && unchanged(elements)
      ensures elements.Length == 0 || hasIntersectionObserver ==> unchanged(elements)
      requires Valid()
    {
      if elements.Length == 0 {
        return;
      }
      if !hasIntersectionObserver {
        var i := 0;
        while i < elements.Length
          invariant 0 <= i <= elements.Length
          invariant observed == old(observed) && observing == old(observing)
          invariant forall j :: 0 <= j < i ==> elements[j] == AddClasses(old(elements[j]), RevealClasses)
          invariant forall j :: i <= j < elements.Length ==> elements[j] == old(elements[j])
        {
          elements[i] := AddClasses(elements[i], RevealClasses);
          i := i + 1;
        }
        return;
      }
      observing := true;
      observed := Indices(elements.Length);
    }

    /**
     * The observer callback: every element an entry reports as intersecting
     * gets the reveal classes and is no longer observed; nothing is ever
     * removed.
     */
    method HandleIntersection(entries: seq<Entry>)
      requires Valid() && Delivered(entries, observed)
      modifies this, elements
      ensures Valid() && observing == old(observing)
      ensures observed == old(observed) - HitTargets(entries)
      ensures forall i :: 0 <= i < elements.Length ==>
        elements[i] == if i in HitTargets(entries) then AddClasses(old(elements[i]), RevealClasses) else old(elements[i])
      ensures forall i :: 0 <= i < elements.Length ==> old(elements[i]).classes <= elements[i].classes
    {
      var k := 0;
      while k < |entries|
        invariant 0 <= k <= |entries|
        invariant Valid() && observing == old(observing)
        invariant observed == old(observed) - HitTargets(entries[..k])
        invariant forall i :: 0 <= i < elements.Length ==>
          elements[i] == if i in HitTargets(entries[..k]) then AddClasses(old(elements[i]), RevealClasses) else old(elements[i])
      {
        HitTargetsStep(entries, k);
        var entry := entries[k];
        if entry.isIntersecting {
          elements[entry.target] := AddClasses(elements[entry.target], RevealClasses);
          observed := observed - {entry.target};
        }
        k := k + 1;
      }
      assert entries[..k] == entries;
    }
  }

  // ---------------------------------------------------------------------------
  // StatsCounter
  // ---------------------------------------------------------------------------

  /** data-counter when it is set and non-empty, else the text with its commas deleted. */
  function CounterSource(e: Element): string {
    match Attr(e, "data-counter")
    case Some(v) => if v != "" then v else StripCommas(e.text)
    case None => StripCommas(e.text)
  }

  /** The counter's target, None standing for NaN. */
  function CounterTarget(e: Element): Option<int> {
    ParseInt(CounterSource(e))
  }

  /**
   * The element once its animation has run to the end: formatNumber(target)
   * as its text and the class counted; a NaN target leaves it untouched.
   */
  function Finalised(e: Element): (r: Element)
    ensures CounterTarget(e).None? ==> r == e
    ensures CounterTarget(e).Some? ==>
      r == e.(text := FormatNumber(CounterTarget(e).value), classes := e.classes + {"counted"})
  {
    match CounterTarget(e)
    case None => e
    case Some(t) => AddClasses(e.(text := FormatNumber(t)), {"counted"})
  }

  /** The fallback without IntersectionObserver writes the formatted target but does not add counted. */
  function Formatted(e: Element): (r: Element)
    ensures CounterTarget(e).None? ==> r == e
    ensures CounterTarget(e).Some? ==> r == e.(text := FormatNumber(CounterTarget(e).value))
  {
    match CounterTarget(e)
    case None => e
    case Some(t) => e.(text := FormatNumber(t))
  }

  /**
   * A finished counter still carries its target: read back from the
   * formatted text (commas deleted), or from data-counter when that is set,
   * it yields the number it was animated to.
   */
  lemma FinalisedReadBack(e: Element)
    ensures CounterTarget(Finalised(e)) == CounterTarget(e)
    ensures CounterTarget(Formatted(e)) == CounterTarget(e)
  {
    match CounterTarget(e)
    case None =>
    case Some(t) => CounterReadBack(t);
  }

  /** A counter is animated at most once in effect: finishing a finished counter changes nothing. */
  lemma FinalisedIdempotent(e: Element)
    ensures Finalised(Finalised(e)) == Finalised(e)
  {
    FinalisedReadBack(e);
  }

  class StatsCounter {
    const elements: array<Element>  // [data-counter], .stat-number, .counter
    var observed: set<nat>
    var observing: bool

    constructor (elements: array<Element>)
      ensures this.elements == elements && observed == {} && !observing
    {
      this.elements := elements;
      observed := {};
      observing := false;
    }

    predicate Valid()
      reads this
    {
      forall i :: i in observed ==> i < elements.Length
    }

    /** animateCounter, its frames run to completion. */
    method AnimateCounter(i: nat)
      requires i < elements.Length
      modifies elements
      ensures elements[i] == Finalised(old(elements[i]))
      ensures forall j :: 0 <= j < elements.Length && j != i ==> elements[j] == old(elements[j])
    {
      var target := CounterTarget(elements[i]);
      if target.None? {
        return;
      }
      elements[i] := AddClasses(elements[i].(text := FormatNumber(target.value)), {"counted"});
    }

    /** The fallback's loop body for one counter: a parsed target is written formatted, a NaN one left as it is. */
    method ShowFormatted(i: nat)
      requires i < elements.Length
      modifies elements
      ensures elements[i] == Formatted(old(elements[i]))
      ensures forall j :: 0 <= j < elements.Length && j != i ==> elements[j] == old(elements[j])
    {
      var target := CounterTarget(elements[i]);
      if target.Some? {
        elements[i] := elements[i].(text := FormatNumber(target.value));
      }
    }

    lemma CounterStep(b: Element, cur: Element, started: bool)
      requires cur == if started then Finalised(b) else b
      requires !HasClass(cur, "counted")
      ensures !HasClass(b, "counted")
      ensures Finalised(cur) == Finalised(b)
    {
      if started { FinalisedIdempotent(b); }
    }

    /** The elements of the batch that the callback animates: hit, and not yet counted beforehand. */
    ghost function Started(entries: seq<Entry>, before: seq<Element>): set<nat> {
      set i | i in HitTargets(entries) && i < |before| && !HasClass(before[i], "counted")
    }

    lemma StartedStep(entries: seq<Entry>, k: nat, before: seq<Element>)
      requires k < |entries|
      ensures var e := entries[k];
        Started(entries[..k + 1], before)
        == Started(entries[..k], before)
           + (if e.isIntersecting && e.target < |before| && !HasClass(before[e.target], "counted") then {e.target} else {})
    {
      HitTargetsStep(entries, k);
    }

    /**
     * The observer callback: an intersecting element that is not yet
     * counted is animated and no longer observed; an element already counted
     * is left alone.
     */
    method HandleIntersection(entries: seq<Entry>)
      requires Valid() && Delivered(entries, observed)
      modifies this, elements
      ensures Valid() && observing == old(observing)
      ensures observed == old(observed) - Started(entries, old(elements[..]))
      ensures forall i :: 0 <= i < elements.Length ==>
        elements[i] == if i in Started(entries, old(elements[..])) then Finalised(old(elements[i])) else old(elements[i])
    {
      var k := 0;
      while k < |entries|
        invariant 0 <= k <= |entries|
        invariant Valid() && observing == old(observing)
        invariant observed == old(observed) - Started(entries[..k], old(elements[..]))
        invariant forall i :: 0 <= i < elements.Length ==>
          elements[i] == if i in Started(entries[..k], old(elements[..])) then Finalised(old(elements[i])) else old(elements[i])
      {
        StartedStep(entries, k, old(elements[..]));
        var entry := entries[k];
        if entry.isIntersecting && !HasClass(elements[entry.target], "counted") {
          var t := entry.target;
          CounterStep(old(elements[t]), elements[t], t in Started(entries[..k], old(elements[..])));
          AnimateCounter(t);
          observed := observed - {t};
        }
        k := k + 1;
      }
      assert entries[..k] == entries;
    }

    /**
     * With no elements nothing happens. Without IntersectionObserver every
     * counter with a number shows it formatted at once (and is not marked
     * counted); otherwise every counter is observed.
     */
    method Init(hasIntersectionObserver: bool)
      requires Valid()
      modifies this, elements
      ensures Valid()
      ensures elements.Length == 0 || hasIntersectionObserver ==> unchanged(elements)
      ensures elements.Length == 0 ==> observed == old(observed) && observing == old(observing)
      ensures elements.Length > 0 && !hasIntersectionObserver ==>
        observed == old(observed) && observing == old(observing)
        && forall i :: 0 <= i < elements.Length ==> elements[i] == Formatted(old(elements[i]))
      ensures elements.Length > 0 && hasIntersectionObserver ==>
        observing && observed == Indices(elements.Length)
    {
      if elements.Length == 0 {
        return;
      }
      if !hasIntersectionObserver {
        ghost var before := elements[..];
        var i := 0;
        while i < elements.Length
          invariant 0 <= i <= elements.Length
          invariant observed == old(observed) && observing == old(observing)
          invariant forall j :: 0 <= j < i ==> elements[j] == Formatted(before[j])
          invariant forall j :: i <= j < elements.Length ==> elements[j] == before[j]
        {
          ShowFormatted(i);
          i := i + 1;
        }
        return;
      }
      observing := true;
      observed := Indices(elements.Length);
    }
  }

  // ---------------------------------------------------------------------------
  // FormHandler
  // ---------------------------------------------------------------------------

  /** One required field after validation: error exactly when its value is all white space, nothing else touched. */
  function Checked(field: Element): (r: Element)
    ensures HasClass(r, "error") <==> Blank(field.value)
    ensures r.classes - {"error"} == field.classes - {"error"}
    ensures r.value == field.value && r.attrs == field.attrs && r.style == field.style && r.text == field.text
  {
    if Blank(field.value) then AddClasses(field, {"error"}) else RemoveClasses(field, {"error"})
  }

  /**
   * The submit listener over the form's [required] fields: a field whose
   * trimmed value is empty is marked with error, any other field is cleared
   * of it, and the submission is prevented exactly when some field was
   * marked. An empty trimmed value is the same as an all-white-space value.
   */
  method HandleSubmit(fields: array<Element>) returns (prevented: bool)
    modifies fields
    ensures prevented <==> exists i :: 0 <= i < fields.Length && Blank(old(fields[i]).value)
    ensures forall i :: 0 <= i < fields.Length ==> fields[i] == Checked(old(fields[i]))
  {
    ghost var before := fields[..];
    var isValid := true;
    var i := 0;
    while i < fields.Length
      invariant 0 <= i <= fields.Length
      invariant isValid <==> forall j :: 0 <= j < i ==> !Blank(before[j].value)
      invariant forall j :: 0 <= j < i ==> fields[j] == Checked(before[j])
      invariant forall j :: i <= j < fields.Length ==> fields[j] == before[j]
    {
      TrimEmptyIffBlank(fields[i].value);
      if Trim(fields[i].value) == "" {
        isValid := false;
        fields[i] := AddClasses(fields[i], {"error"});
      } else {
        fields[i] := RemoveClasses(fields[i], {"error"});
      }
      i := i + 1;
    }
    prevented := !isValid;
  }
}
