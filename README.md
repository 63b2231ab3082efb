# Rangeway site scripts in Dafny

A verified model of the browser scripts behind the Rangeway marketing pages. There are five scripts:

- `beta/assets/js/main.js`: mobile menu, sticky navigation, smooth scroll, scroll animations, statistics counter and form check.
- `assets/js/modern.js`: hamburger menu, fade-in, parallax, scroll indicator, scroll-spy and lazy images.
- `assets/js/main.js`: navbar, mobile menu with overlay, smooth scroll, reveal and parallax.
- `assets/js/beta.js`: colour-scheme theme, navbar, slide-over menu, anchor scroll, stagger delays, reveal and the above-the-fold check.
- `beta/js/main.js`: menu toggle and dark-mode persistence.

Each script is its own module (`BetaAssetsMain`, `AssetsModern`, `AssetsMain`, `AssetsBeta`, `BetaJsMain`). The near-duplicate variants are not merged, because their thresholds, selectors and guards differ.

The browser is reduced to what the scripts touch (module `Dom`):

- **Elements** are records: a class set, an inline-style map, an attribute map, the text content and a form value.
  - Assigning `''` to an inline style removes the declaration.
  - `setAttribute` with a boolean stores `"true"` or `"false"`.
- **Closures.** Each closure or init function that keeps state becomes a class. Its fields are the elements it captured and the variables it reassigns (`isOpen`, `ticking`, `lastScrollY`, the observed set, `localStorage` as a map).
- **Element lists** that a `forEach` mutates are arrays.
- **IntersectionObserver** entries carry the index of their element in the observed list. A batch may only name elements that are currently observed (`Dom.Delivered`). This is the browser's guarantee, and it is why an unobserved element is never processed again.
- **Click handlers** that only decide what the browser should do return a `ClickEffect`: whether `preventDefault` was called, where the window scrolls, and which URL is pushed.
- **Missing targets.** A `None` target stands both for a selector that matches nothing and for one that throws. Either way the handler stops before scrolling.

The JavaScript built-ins the scripts depend on are written out:

- `JsText`: `String.prototype.trim`, using the ECMAScript white-space and line-terminator sets, and the global `parseInt` (leading white space, sign, `0x` prefix, longest digit prefix, NaN as `None`).
- `NumberFormat`: `Number.prototype.toString` on integers, and the `formatNumber` replace with `/\B(?=(\d{3})+(?!\d))/g`.
  - The replace is modelled literally: `\B` is checked with ASCII word characters, and the lookahead with a digit-run count.
  - `NumberFormat.LookaheadByRun` proves that this count agrees with the lookahead's own existential reading.

Behaviour of the code as written that the model keeps:

- `assets/js/main.js`: a parallax frame that finds no `.hero` returns before clearing `ticking`. From then on no frame is scheduled again (`AssetsMain.ScrollAfterStall`).
- `assets/js/beta.js` and `beta/js/main.js` use their elements without null checks. A missing element throws part-way through a handler. The writes made before the throw stand, and the handler reports `completed == false`. For example, without `#mobileMenuOverlay`, closing the slide-over menu clears `active` but never unlocks body scrolling.
- `assets/js/modern.js` constructs its IntersectionObserver without checking that the browser has one. Without it the DOMContentLoaded listener throws at that point, and the parallax, scroll indicator, scroll-spy and lazy images are never set up. The no-observer branch of `AssetsModern.LazyImages.Init` therefore models the guard in its own code but is not reached in a real page.
- `assets/js/modern.js`: while no section is reached, `current` is `''`. A bare `href="#"` link then counts as the current link (`AssetsModern.BareHashActiveAtTop`).
- Other behaviour of the code that the model keeps:
  - `assets/js/beta.js` and the `modern.js` fade-in never unobserve.
  - Only `beta/assets/js/main.js` has a no-IntersectionObserver fallback.
  - A missing element is not always a silent no-op.

## Model

| member | source | states |
|---|---|---|
| NumberFormat.NatToString | beta/assets/js/main.js:35 | `toString` of a non-negative integer is the canonical numeral: a non-empty digit string whose decimal value is the number, with no leading zero unless the number is 0 |
| NumberFormat.LookaheadByRun | beta/assets/js/main.js:35 | `(?=(\d{3})+(?!\d))` holds at a position exactly when the digit run starting there is a positive multiple of three long |
| NumberFormat.SeparatorInDigits | beta/assets/js/main.js:35 | in a numeral the expression matches exactly at interior positions whose distance to the end is a multiple of three |
| NumberFormat.InsertedIsGrouped | beta/assets/js/main.js:35 | the global replace on a numeral equals an independent grouping in threes from the right |
| NumberFormat.StripInserted | beta/assets/js/main.js:35 | the replace only inserts commas: deleting all commas from its output gives its input back |
| NumberFormat.FormatGroups | beta/assets/js/main.js:34-36 | for n ≥ 0, `formatNumber(n)` has a leading group of 1–3 digits then groups of a comma and exactly 3 digits, with no leading or trailing comma |
| NumberFormat.FormatSmall | beta/assets/js/main.js:34-36 | `formatNumber(n)` equals n's plain decimal text if and only if n < 1000 |
| NumberFormat.FormatNegative | beta/assets/js/main.js:34-36 | for n < 0 the result is a minus sign before `formatNumber(-n)`: no comma lands after the sign |
| NumberFormat.StripFormatted | beta/assets/js/main.js:34-36 | deleting every comma from `formatNumber(n)` yields n's decimal text |
| NumberFormat.CounterReadBack | beta/assets/js/main.js:303 | `parseInt(formatNumber(n).replace(/,/g, ''))` is n for every integer n |
| JsText.TrimEmptyIffBlank | beta/assets/js/main.js:450 | `value.trim()` is empty if and only if every character of the value is white space |
| JsText.ParseIntDecimal | beta/assets/js/main.js:303 | `parseInt` of a decimal numeral is its value |
| JsText.ParseIntNegative | beta/assets/js/main.js:303 | `parseInt` of a minus sign and a numeral is the negated value |
| Dom.HitTargetsMeaning | beta/assets/js/main.js:252-253 | an element is hit by a batch if and only if some entry of the batch names it as intersecting |
| Dom.AddClassesIdempotent | beta/assets/js/main.js:78-83 | `classList.add` of classes already present changes nothing |
| Dom.RemoveClassesIdempotent | beta/assets/js/main.js:88-93 | `classList.remove` of classes already absent changes nothing |
| Dom.ToggleClassTwice | beta/js/main.js:54 | `classList.toggle` flips membership, and toggling twice restores the element |
| Dom.SetStyleIdempotent | beta/assets/js/main.js:81 | an inline style write reads back as written, and repeating it changes nothing |
| BetaAssetsMain.MobileMenu.constructor | beta/assets/js/main.js:55-60 | the menu starts closed with the captured elements |
| BetaAssetsMain.MobileMenu.Open | beta/assets/js/main.js:78-83 | menu `active`+`open`, button `active`, overflow `hidden`, `isOpen`; all flags in sync afterwards |
| BetaAssetsMain.MobileMenu.Close | beta/assets/js/main.js:88-93 | the reverse of open, from any state; flags in sync afterwards (also the menu-link listener) |
| BetaAssetsMain.MobileMenu.OpenTwice | beta/assets/js/main.js:78-83 | open is idempotent: a second open leaves exactly the state of the first |
| BetaAssetsMain.MobileMenu.CloseTwice | beta/assets/js/main.js:88-93 | close is idempotent: a second close leaves exactly the state of the first |
| BetaAssetsMain.MobileMenu.Toggle | beta/assets/js/main.js:65-73 | `isOpen` flips, and the state is exactly that of open or close |
| BetaAssetsMain.MobileMenu.HandleOutsideClick | beta/assets/js/main.js:99-103 | closes only when open, the menu exists and the target is outside both menu and button; otherwise no change |
| BetaAssetsMain.MobileMenu.HandleKeydown | beta/assets/js/main.js:123-127 | Escape closes only when open; otherwise no change |
| BetaAssetsMain.StickyNav.HandleScroll | beta/assets/js/main.js:144-154 | `scrolled` and `sticky` present if and only if the scroll position is > 50 (exactly 50 removes them) |
| BetaAssetsMain.HandleClick | beta/assets/js/main.js:183-220 | default prevented exactly for a link whose href is not empty, `#` or `#!` and whose target exists; then scroll to top + pageYOffset − 80 and push the href when pushState exists |
| BetaAssetsMain.ScrollAnimations.Init | beta/assets/js/main.js:266-285 | no elements: no-op; no IntersectionObserver: every element gets `animated visible in-view`; otherwise all are observed |
| BetaAssetsMain.ScrollAnimations.HandleIntersection | beta/assets/js/main.js:251-261 | exactly the hit elements gain the three classes and are unobserved; no class is ever removed |
| BetaAssetsMain.Finalised | beta/assets/js/main.js:302-334 | NaN target: element untouched; otherwise text `formatNumber(target)`, class `counted` added, nothing else changed |
| BetaAssetsMain.Formatted | beta/assets/js/main.js:365-370 | the fallback writes `formatNumber(target)` as the text of a counter with a number and changes nothing else; NaN counters are left alone |
| BetaAssetsMain.FinalisedReadBack | beta/assets/js/main.js:303 | a finished counter read back by the same parsing gives the same target |
| BetaAssetsMain.FinalisedIdempotent | beta/assets/js/main.js:343 | finishing a finished counter changes nothing |
| BetaAssetsMain.StatsCounter.AnimateCounter | beta/assets/js/main.js:302-334 | the element becomes its finished state; every other counter is untouched |
| BetaAssetsMain.StatsCounter.HandleIntersection | beta/assets/js/main.js:341-348 | exactly the hit counters not already `counted` are finished and unobserved; counted ones are never animated again |
| BetaAssetsMain.StatsCounter.Init | beta/assets/js/main.js:353-379 | no elements: no-op; no IntersectionObserver: every counter shows its formatted target; otherwise all are observed |
| BetaAssetsMain.Checked | beta/assets/js/main.js:449-455 | a field has `error` if and only if its value is all white space; nothing else about it changes |
| BetaAssetsMain.HandleSubmit | beta/assets/js/main.js:439-462 | prevented if and only if some required field is blank after trimming; afterwards exactly those fields carry `error` |
| AssetsModern.Menu.ToggleMenu | assets/js/modern.js:7-26 | with both elements: `active` flips on both, `aria-expanded` and overflow follow #navLinks; without: no change |
| AssetsModern.Menu.HandleDocumentClick | assets/js/modern.js:29-40 | closes only when nav, #navLinks and hamburger exist, the click is outside nav and the menu is open; otherwise no change |
| AssetsModern.Menu.HandleNavLinkClick | assets/js/modern.js:46-56 | always ends closed with `aria-expanded` `false` and overflow `''` when both elements exist |
| AssetsModern.AnchorClick | assets/js/modern.js:60-72 | default always prevented; scrolls to offsetTop − 150 exactly when the target exists |
| AssetsModern.Hidden | assets/js/modern.js:117-122 | set-up gives opacity 0, translateY(30px) and the transition, leaving every other style, the classes, attributes, text and value alone |
| AssetsModern.Shown | assets/js/modern.js:103-110 | an intersecting entry sets opacity 1 and translateY(0) and no other style |
| AssetsModern.ShownIdempotent | assets/js/modern.js:103-110 | a repeated entry for a shown element changes nothing |
| AssetsModern.FadeIn.Setup | assets/js/modern.js:113-122 | every element is hidden and observed |
| AssetsModern.FadeIn.HandleIntersection | assets/js/modern.js:103-110 | exactly the hit elements are shown; nothing is unobserved |
| AssetsModern.Parallax.OnScroll | assets/js/modern.js:126-141 | while `ticking`, scrolling changes nothing; otherwise exactly one frame becomes pending |
| AssetsModern.Parallax.AnimationFrame | assets/js/modern.js:128-138 | clears `ticking`; the transform is written only when the hero exists and scrolled ≤ its height |
| AssetsModern.ScrollBurst | assets/js/modern.js:126-141 | any number of scroll events between frames leaves at most one frame pending |
| AssetsModern.ScrollIndicator.HandleScroll | assets/js/modern.js:144-151 | opacity `0` if and only if pageYOffset > 100, otherwise `1`; no indicator, no change |
| AssetsModern.LastReached | assets/js/modern.js:158-165 | the index returned names a section with pageYOffset ≥ offsetTop − 200 |
| AssetsModern.LastReachedMeaning | assets/js/modern.js:158-165 | it is the last such section in document order, and None exactly when no section qualifies |
| AssetsModern.CurrentSection | assets/js/modern.js:157-165 | the loop leaves `current` as the id of the last reached section, or `''` |
| AssetsModern.HighlightNavLinks | assets/js/modern.js:167-172 | afterwards a link has `active` if and only if its href minus the first character equals `current` |
| AssetsModern.HandleSpyScroll | assets/js/modern.js:157-173 | exactly the links naming the last reached section are active; nothing else about any link changes |
| AssetsModern.BareHashActiveAtTop | assets/js/modern.js:169 | with no section reached, a link with href `#` matches and is marked active |
| AssetsModern.Loaded | assets/js/modern.js:179-184 | a non-empty `data-src` becomes `src` and `data-src` is removed; every other attribute, the classes, style, text and value are kept; otherwise the image is untouched |
| AssetsModern.LoadedIdempotent | assets/js/modern.js:177-188 | the swap happens once: loading a loaded image changes nothing |
| AssetsModern.LazyImages.Init | assets/js/modern.js:176-193 | all `img[data-src]` are observed only when IntersectionObserver exists |
| AssetsModern.LazyImages.HandleIntersection | assets/js/modern.js:177-188 | exactly the hit images are loaded and unobserved, so no later batch can load them again |
| AssetsMain.Navbar.constructor | assets/js/main.js:16-37 | at init `scrolled` is present if and only if scrollY > 80 |
| AssetsMain.Navbar.UpdateNavbar | assets/js/main.js:23-33 | `scrolled` present if and only if scrollY > 80; `lastScrollY` is the new position |
| AssetsMain.MobileMenu.OpenMenu | assets/js/main.js:49-58 | toggle `active`, `aria-expanded` `true`, #navMenu `active`, overlay `active` with `aria-hidden` `false`, overflow `hidden`; the five flags agree |
| AssetsMain.MobileMenu.CloseMenu | assets/js/main.js:60-69 | the reverse; `aria-hidden` stays the negation of `aria-expanded` (also the overlay's listener) |
| AssetsMain.MobileMenu.ToggleMenu | assets/js/main.js:71-78 | branches on #navMenu `active`, so each call flips the open state and leaves the flags in sync |
| AssetsMain.MobileMenu.HandleLinkClick | assets/js/main.js:87-93 | closes if and only if innerWidth ≤ 1024 |
| AssetsMain.MobileMenu.HandleKeydown | assets/js/main.js:96-101 | Escape closes only when open; otherwise no change |
| AssetsMain.MobileMenu.HandleResize | assets/js/main.js:104-108 | closes only when innerWidth > 1024 and the menu is open; otherwise no change |
| AssetsMain.NavbarOffset | assets/js/main.js:125 | the navbar height, or 80 when it is missing or 0 |
| AssetsMain.AnchorClick | assets/js/main.js:115-136 | `#` or a missing target: no effect; otherwise default prevented, scroll to top + scrollY − navbar offset, href pushed |
| AssetsMain.Reveal.Init | assets/js/main.js:142-160 | zero elements: no observer; otherwise all are observed |
| AssetsMain.Reveal.HandleIntersection | assets/js/main.js:147-153 | exactly the hit elements gain `visible` and are unobserved |
| AssetsMain.Parallax.constructor | assets/js/main.js:165-172 | installed if and only if the hero image exists and innerWidth ≥ 968 |
| AssetsMain.Parallax.OnScroll | assets/js/main.js:189-194 | not installed or `ticking`: no change; otherwise one frame pending |
| AssetsMain.Parallax.AnimationFrame | assets/js/main.js:174-187 | the transform is written only when `.hero` exists and scrollY < its height; `ticking` stays set when `.hero` is missing |
| AssetsMain.ScrollAfterStall | assets/js/main.js:174-194 | after a frame that found no `.hero`, no number of scroll events changes anything |
| AssetsBeta.ThemeName | assets/js/beta.js:15 | `dark` exactly when the dark colour-scheme query matches, `light` otherwise |
| AssetsBeta.Theme.constructor | assets/js/beta.js:10-15 | at load `data-theme` is `dark` if and only if the query matches |
| AssetsBeta.Theme.OnChange | assets/js/beta.js:18-20 | on every change `data-theme` is `dark` if and only if the query matches |
| AssetsBeta.Navbar.HandleScroll | assets/js/beta.js:28-38 | `scrolled` present if and only if scrollY > 100; without #navbar the listener throws and nothing changes |
| AssetsBeta.SlideMenu.OpenMobileMenu | assets/js/beta.js:48-53 | sets `active` on menu, toggle and overlay and overflow `hidden`, stopping at the first missing element |
| AssetsBeta.SlideMenu.CloseMobileMenu | assets/js/beta.js:55-60 | the reverse (also the close button, overlay and navbar-link listeners); in sync when it completes |
| AssetsBeta.SlideMenu.CloseTwice | assets/js/beta.js:55-60 | closing twice leaves the same state as closing once |
| AssetsBeta.SlideMenu.ToggleClick | assets/js/beta.js:62-71 | flips the open state by branching on #navMenu `active` |
| AssetsBeta.SlideMenu.HandleKeydown | assets/js/beta.js:95-99 | Escape closes only when open; any other key changes nothing |
| AssetsBeta.AnchorClick | assets/js/beta.js:104-120 | `#` or a missing target: no effect; otherwise default prevented and scroll to offsetTop − 80 |
| AssetsBeta.ContainerDelay | assets/js/beta.js:147-152 | inside one container an element's delay is its (last) index there; other elements keep theirs |
| AssetsBeta.StaggerByIndex | assets/js/beta.js:149-151 | child i gets i tenths: the first 0s, and delays strictly increase with the index |
| AssetsBeta.StaggerLastContainerWins | assets/js/beta.js:146-152 | for nested containers the last container in document order that holds the element decides its delay |
| AssetsBeta.Animations.ApplyStagger | assets/js/beta.js:146-152 | the nested loops leave exactly the delays of the container-by-container specification |
| AssetsBeta.Animations.ObserveAll | assets/js/beta.js:155-157 | every animated element is observed |
| AssetsBeta.Animations.HandleIntersection | assets/js/beta.js:130-138 | exactly the hit elements gain `visible`; nothing is unobserved or removed |
| AssetsBeta.Animations.CheckInitialViewport | assets/js/beta.js:160-167 | exactly the elements with top < 0.9·innerHeight and bottom > 0 gain `visible` |
| AssetsBeta.HeroParallax.HandleScroll | assets/js/beta.js:175-184 | the transform is written only while scrollY < innerHeight |
| BetaJsMain.StoredTheme | beta/js/main.js:43 | the loaded theme is `dark` exactly when the stored value is `dark`; missing or empty reads as `light` |
| BetaJsMain.StoredThemeRoundTrip | beta/js/main.js:43-58 | a value stored by the toggle reloads to the mode it was written for |
| BetaJsMain.Page.constructor | beta/js/main.js:39-49 | a stored `dark` adds `dark-mode` and the sun icon; anything else leaves the page unchanged |
| BetaJsMain.Page.ToggleClick | beta/js/main.js:5-9 | #navMenu `active` flips; the listener throws without #navMenu |
| BetaJsMain.Page.DocumentClick | beta/js/main.js:32-36 | a click outside both #navMenu and the toggle removes `active`; a click inside either changes nothing |
| BetaJsMain.Page.ClickOnToggle | beta/js/main.js:5-36 | a click on the toggle, after bubbling to the document, still flips the menu |
| BetaJsMain.Page.AnchorClick | beta/js/main.js:12-29 | default always prevented; a selector that `querySelector` rejects (a bare `#`) throws there; with an existing target the menu ends without `active` |
| BetaJsMain.Page.UpdateThemeIcon | beta/js/main.js:66-70 | the icon is the sun for dark and the moon for light; no #themeToggle, no change |
| BetaJsMain.Page.ThemeToggleClick | beta/js/main.js:52-63 | `dark-mode` flips, `theme` stores `dark` if and only if it is now set, the icon follows, and a reload restores the same mode |
| BetaJsMain.Page.ThemeToggleTwice | beta/js/main.js:53-62 | two toggles restore the class list, and the stored value when it was in sync |

## Left out

- BetaAssetsMain.StatsCounter.AnimateCounter: the counter is modelled in its final state only. The frame-by-frame values from `easeOutQuad` (floating point, `performance.now`, `requestAnimationFrame`) are not modelled.
- AssetsModern.Parallax.AnimationFrame, AssetsMain.Parallax.AnimationFrame, AssetsBeta.HeroParallax.HandleScroll: the transform string (`scrolled * 0.5`, `* 0.12`, `* 0.15`, the scale term) is recorded as the scroll position it is computed from, because the values are floating point.
- AssetsBeta.Animations.ApplyStagger: `transitionDelay` is kept as a whole number of tenths of a second, not the float text `${index * 0.1}s`.
- AssetsBeta.Animations.CheckInitialViewport: rectangle coordinates and `innerHeight` are integers, so `top < 0.9 * innerHeight` becomes `top * 10 < innerHeight * 9`.
- `debounce` and every `setTimeout`: timer scheduling. The sticky-nav handler is modelled as if called directly. The route-calculator result and the page-load hero fade are not modelled.
- IntersectionObserver thresholds, root margins and geometry are the browser's concern. Entries are inputs.
- `scrollTo`, `scrollIntoView`, `history.pushState` and `focus()` are recorded as a `ClickEffect` or left out.
- `formatNumber` on non-integers and on magnitudes of 1e21 or more: `toString` switches to exponent form there, and the callers only pass integers.
- JsText.ParseInt, NumberFormat.NatToString, NumberFormat.CounterReadBack: JavaScript numbers are doubles, so `parseInt` rounds a numeral past 2^53 to the nearest double (`"12345678901234567891"` becomes 12345678901234567000) and the counter shows that rounded value; the model keeps exact integers. The read-back property holds in JavaScript as well, because `toString` round-trips doubles.
- LogoMarquee cloning and hover play-state, `PageLoad` (`loaded` class, delayed hero `visible`), mouse-position CSS variables, card hover transforms, image preload hints, reduced-motion CSS variables and console output: presentation only, with nothing to state.
- `assets/js/modern.js` looks its elements up again on every event. The model keeps them as fields fixed at construction, so elements added or removed later are not modelled.
- BetaAssetsMain.MobileMenu: its listeners are installed only when both the button and the menu exist. The handlers are modelled for any combination of present elements, which includes that case.
