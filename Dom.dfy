/**
 * The browser, reduced to what the site scripts read and write.
 *
 * An element is a record: its class list, its inline styles, its attributes,
 * its text content and (for form controls) its current value. Events become
 * method calls whose integer parameters are the geometry the handlers read
 * (scroll offsets, rectangles, viewport widths).
 */
module Dom {

  datatype Option<T> = None | Some(value: T)

  datatype Element = Element(
    classes: set<string>,
    style: map<string, string>,
    attrs: map<string, string>,
    text: string,
    value: string)

  /**
   * One IntersectionObserver entry: the observed element, named by its index
   * in the list the script observed, and whether it intersects the root.
   */
  datatype Entry = Entry(target: nat, isIntersecting: bool)

  /**
   * What a click handler asks of the browser: whether it called
   * preventDefault, where it scrolls the window to (if it does), and the URL
   * it pushes onto the history (if it does).
   */
  datatype ClickEffect = ClickEffect(preventDefault: bool, scrollTop: Option<int>, pushedUrl: Option<string>)

  const NoEffect := ClickEffect(false, None, None)

  predicate HasClass(e: Element, c: string) {
    c in e.classes
  }

  /** classList.add with one or more names */
  function AddClasses(e: Element, cs: set<string>): Element {
    e.(classes := e.classes + cs)
  }

  /** classList.remove with one or more names */
  function RemoveClasses(e: Element, cs: set<string>): Element {
    e.(classes := e.classes - cs)
  }

  /** classList.toggle(c) */
  function ToggleClass(e: Element, c: string): Element {
    if c in e.classes then RemoveClasses(e, {c}) else AddClasses(e, {c})
  }

  /** element.style[p]; an inline property that was never set reads as '' */
  function Style(e: Element, p: string): string {
    if p in e.style then e.style[p] else ""
  }

  /** element.style[p] = v; assigning '' removes the inline declaration */
  function SetStyle(e: Element, p: string, v: string): Element {
    if v == "" then e.(style := e.style - {p}) else e.(style := e.style[p := v])
  }

  /** getAttribute: None stands for null */
  function Attr(e: Element, a: string): Option<string> {
    if a in e.attrs then Some(e.attrs[a]) else None
  }

  function SetAttr(e: Element, a: string, v: string): Element {
    e.(attrs := e.attrs[a := v])
  }

  function RemoveAttr(e: Element, a: string): Element {
    e.(attrs := e.attrs - {a})
  }

  /** setAttribute(name, b) with a boolean b stores 'true' or 'false' */
  function BoolText(b: bool): string {
    if b then "true" else "false"
  }

  /** el?.classList.add(...): nothing happens when the element is missing */
  function AddClassesTo(o: Option<Element>, cs: set<string>): Option<Element> {
    match o
    case None => None
    case Some(e) => Some(AddClasses(e, cs))
  }

  /** el?.classList.remove(...) */
  function RemoveClassesFrom(o: Option<Element>, cs: set<string>): Option<Element> {
    match o
    case None => None
    case Some(e) => Some(RemoveClasses(e, cs))
  }

  /** The indices 0 .. n-1 of a list of n elements: what observing all of them adds to the observed set. */
  function Indices(n: nat): (r: set<nat>)
    ensures forall i: nat :: i in r <==> i < n
  {
    if n == 0 then {} else Indices(n - 1) + {n - 1}
  }

  /** Every entry names an element the observer is observing. */
  predicate Delivered(entries: seq<Entry>, observed: set<nat>) {
    forall k :: 0 <= k < |entries| ==> entries[k].target in observed
  }

  /** The elements that some entry of the batch reports as intersecting, gathered in the order the batch is walked. */
  function HitTargets(entries: seq<Entry>): set<nat>
    decreases |entries|
  {
    if entries == [] then {}
    else
      var last := entries[|entries| - 1];
      HitTargets(entries[..|entries| - 1]) + (if last.isIntersecting then {last.target} else {})
  }

  /** An element is hit exactly when some entry of the batch reports it as intersecting. */
  lemma {:induction false} HitTargetsMeaning(entries: seq<Entry>, i: nat)
    ensures i in HitTargets(entries) <==> exists k :: 0 <= k < |entries| && entries[k].target == i && entries[k].isIntersecting
    decreases |entries|
  {
    if entries != [] {
      var front := entries[..|entries| - 1];
      HitTargetsMeaning(front, i);
      assert forall k :: 0 <= k < |front| ==> front[k] == entries[k];
    }
  }

  /** Walking one more entry of the batch. */
  lemma HitTargetsStep(entries: seq<Entry>, k: nat)
    requires k < |entries|
    ensures HitTargets(entries[..k + 1])
         == HitTargets(entries[..k]) + (if entries[k].isIntersecting then {entries[k].target} else {})
  {
    assert entries[..k + 1][..k] == entries[..k];
  }

  // Repeating an element operation changes nothing more: the reason every open
  // and close handler in the script modules is idempotent.

  lemma AddClassesIdempotent(e: Element, cs: set<string>)
    ensures AddClasses(AddClasses(e, cs), cs) == AddClasses(e, cs)
  {
  }

  lemma RemoveClassesIdempotent(e: Element, cs: set<string>)
    ensures RemoveClasses(RemoveClasses(e, cs), cs) == RemoveClasses(e, cs)
  {
  }

  /** Toggling a class twice gives the element back. */
  lemma ToggleClassTwice(e: Element, c: string)
    ensures ToggleClass(ToggleClass(e, c), c) == e
    ensures HasClass(ToggleClass(e, c), c) == !HasClass(e, c)
  {
    if c in e.classes {
      assert (e.classes - {c}) + {c} == e.classes;
    } else {
      assert (e.classes + {c}) - {c} == e.classes;
    }
  }

  lemma SetStyleIdempotent(e: Element, p: string, v: string)
    ensures SetStyle(SetStyle(e, p, v), p, v) == SetStyle(e, p, v)
    ensures Style(SetStyle(e, p, v), p) == v
  {
  }
}
