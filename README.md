# Accessible dropdown menus and same-page scrolling, in Dafny

This project models the two browser behaviours of a small demo site.

- **nav.js** (module `Nav`) is the dropdown state machine. Each top-level `<li>` of the main menu that owns a submenu keeps one boolean, "expanded". That boolean is written onto four surfaces: `aria-expanded` on the `<li>`, `aria-expanded` on its toggle link, the `uncollapsed`/`collapsed` class pair, and the compatibility pair `menu-item--expanded`/`menu-item--collapsed`.
  - Hover and focus-in open the item. Hover-out closes it. Focus-out closes it unless focus stays inside the item.
  - Enter, Space and a click on the toggle prevent navigation and toggle the item. Escape closes it and puts focus back on the toggle.
  - On page load, any missing `aria-expanded` is set to `"false"` on items that have a submenu.
- **scroll.js** (module `Scroll`) handles a click on a `#id` link in the main menu:
  - it drops the "open" classes from every `<li>`;
  - it scrolls to `max(0, scrollY + top - headerHeight - 8)`;
  - it pushes `#id` to the address bar;
  - it later focuses the target, lending it `tabindex="-1"` if needed, and flashes the target's first heading until `animationend`.

Both modules share `Dom`. `Dom` holds `Option`, node identities, integer rectangles and an `Element` class with classes, attributes and a count of the highlight-cleanup `animationend` listeners registered on it.

How the model is built:
- Every change to a menu item is specified by a pure function: `Nav.Expand`, `Nav.Toggle`, `Nav.React`, `Nav.Run`, `Nav.Initialised` and `Scroll.Dismissed`.
- The lemmas about those functions carry the properties.
- The in-place code for menu items is class `Nav.MenuItem`, plus the loops `Nav.Initialise` and `Scroll.CloseOpenMenus`. Each is proved to produce exactly the state its function describes.
- The click handler `Scroll.OnClick` changes the menu items in place through `Scroll.CloseOpenMenus`, and its ensures ties the new item states to `Scroll.Dismissed`.
- The deferred focus step (`Scroll.FocusTarget`, `Scroll.OnAnimationEnd`, `Scroll.FocusAndFade`) changes elements in place. It has no specification function: its ensures state its effect on the target, its heading and its descendants directly.

Effects that leave the page are returned as values rather than performed:
- whether the default action was prevented;
- whether focus goes back to the toggle;
- the scroll position;
- the pushed fragment;
- the `tabindex` the target carries while it is focused.

Containment (`li.contains(node)`) is modelled over a map from node to parent node.

Three behaviours of the code worth knowing:
- Page load writes `"false"` only where `aria-expanded` is missing. An item that already carries a value keeps it. The two attributes are equal and `"false"` after load whenever each was missing or already `"false"`, in particular when both were missing (`Nav.InitialisedAriaAgree`).
- `toggleMenu` reads the state from the classes only. `toggle(toggle(x)) == x` holds exactly when the surfaces already agree (`Nav.ToggleInvolution` and `Nav.ToggleInvolutionOnlyIfConsistent`). On a freshly loaded item without classes, the first toggle opens it.
- The scroll helper closes menus by removing classes directly. It does not go through `setExpandedState`, so an item that was open keeps `aria-expanded="true"` and gets no "collapsed" class (`Scroll.DismissLeavesAriaStale`).

## Model

| member | source | states |
|---|---|---|
| `Nav.IsInsideIffAncestorPath` | nav.js:16-18 | `isInside(element, li)` holds exactly when a chain of distinct parent links leads from the element to the `<li>` (ancestor-or-self), both directions |
| `Nav.IsInside` | nav.js:16-18 | `isInside(element, li)`, i.e. `li.contains(element)`: ancestor-or-self over the parent links; its properties are stated by `Nav.IsInsideIffAncestorPath`, `Nav.InsideHasAncestorPath` and `Nav.AncestorPathIsInside` |
| `Nav.InsideHasAncestorPath` | nav.js:16-18 | an element inside the container has a chain of parent links up to it |
| `Nav.AncestorPathIsInside` | nav.js:16-18 | a chain of parent links from a node to the container puts the node inside it |
| `Nav.Expand` | nav.js:20-40 | after `setExpandedState(li, b)` the li's `aria-expanded` is `"true"`/`"false"` as b; with a toggle, the toggle's value equals the li's, and without one it is untouched; with b, `uncollapsed` and `menu-item--expanded` are present and `collapsed` and `menu-item--collapsed` absent, and without b the reverse; every other class is unchanged |
| `Nav.ExpandIsConsistent` | nav.js:20-40 | from any state, `setExpandedState` leaves all four surfaces in agreement, and the item reads as open exactly when b |
| `Nav.ExpandLastWins` | nav.js:20-48 | two writes equal the last one alone: `setExpandedState` is idempotent, and open then close gives the collapsed state on every surface |
| `Nav.ExpandConsistentIsIdentity` | nav.js:20-40 | writing the state that a consistent item already shows changes nothing |
| `Nav.ToggleFlips` | nav.js:50-53 | `toggleMenu` opens the item exactly when neither `uncollapsed` nor `menu-item--expanded` was present, and leaves the surfaces consistent |
| `Nav.ToggleInvolution` | nav.js:50-53 | toggling twice restores every surface of an item whose surfaces agree |
| `Nav.ToggleInvolutionOnlyIfConsistent` | nav.js:50-53 | conversely, an item that two toggles restore had agreeing surfaces, so `toggle(toggle(x)) == x` holds exactly on consistent items |
| `Nav.Toggle` | nav.js:50-53 | `toggleMenu` as a function of the state; its properties are stated by `Nav.ToggleFlips`, `Nav.ToggleInvolution` and `Nav.ToggleInvolutionOnlyIfConsistent` |
| `Nav.UnattachedIgnoresEvents` | nav.js:55-57 | an item with no handlers (no toggle link, or not attached) ignores every event: no state change, no prevented default, no focus move |
| `Nav.React` | nav.js:55-93 | the handlers registered by `attach`, as the new state plus the prevented-default and refocus effects; its properties are stated by `Nav.UnattachedIgnoresEvents`, `Nav.PresenceEvents`, `Nav.FocusOutRule`, `Nav.FocusOutToDescendant`, `Nav.KeyDownRule`, `Nav.ClickRule` and `Nav.ReactKeepsConsistent` |
| `Nav.Run` | nav.js:55-93 | the state after a sequence of events; its properties are stated by `Nav.RunSnoc`, `Nav.RunKeepsConsistent`, `Nav.RunKeepsAriaAgree`, `Nav.RunKeepsListening` and `Nav.LeaveCollapses` |
| `Nav.PresenceEvents` | nav.js:59-64 | mouseenter and focusin open the item; mouseleave closes it; none prevents a default action or moves focus |
| `Nav.FocusOutRule` | nav.js:65-71 | focusout closes the item when `relatedTarget` is null or not inside the li, and otherwise leaves the state unchanged |
| `Nav.FocusOutToDescendant` | nav.js:65-71 | focus moving to a node whose parent chain reaches the li changes nothing |
| `Nav.KeyDownRule` | nav.js:73-83 | on the toggle, Enter or Space prevents the default action and toggles; Escape closes and refocuses the toggle without preventing the default; any other key changes nothing |
| `Nav.ClickRule` | nav.js:85-92 | a click on the toggle always prevents navigation and flips the open state |
| `Nav.ReactKeepsConsistent` | nav.js:55-93 | no handler changes the item's structure or whether it is listening, and every handler keeps a consistent item consistent |
| `Nav.RunSnoc` | nav.js:55-93 | events are handled one at a time, in arrival order |
| `Nav.RunKeepsConsistent` | nav.js:55-93 | a consistent item stays consistent under any sequence of events |
| `Nav.RunKeepsAriaAgree` | nav.js:20-28 | once the toggle's `aria-expanded` equals the li's, no sequence of events makes them disagree, whatever the classes say |
| `Nav.RunKeepsListening` | nav.js:55-93 | events never register or remove handlers |
| `Nav.LeaveCollapses` | nav.js:59-61 | whatever came before, a listening item that the pointer has just left is collapsed, consistent, and has `aria-expanded="false"` |
| `Nav.InitialisedRule` | nav.js:95-116 | the load handler sets `aria-expanded="false"` only where it is missing, on the li and on the toggle, and only for items with a direct child `<ul>`; classes and existing values are untouched, items without a submenu are untouched, and handlers are attached exactly when the item has a submenu and a toggle |
| `Nav.InitialisedAriaAgree` | nav.js:104-113 | on an item with a submenu whose attributes were each missing or `"false"`, page load leaves both `"false"` and equal, and every later sequence of events keeps them equal |
| `Nav.Initialised` | nav.js:99-116 | the load handler's effect on one root item; its properties are stated by `Nav.InitialisedRule` and `Nav.InitialisedAriaAgree` |
| `Nav.MenuItem.SetExpandedState` | nav.js:20-40 | the in-place attribute and class writes produce `Expand(old state, b)` |
| `Nav.MenuItem.Open` | nav.js:42-44 | `openMenu` is `Expand(old state, true)` |
| `Nav.MenuItem.Close` | nav.js:46-48 | `closeMenu` is `Expand(old state, false)` |
| `Nav.MenuItem.ToggleMenu` | nav.js:50-53 | `toggleMenu` reads the classes and then writes the opposite state: `Toggle(old state)` |
| `Nav.MenuItem.Attach` | nav.js:55-57 | `attach` registers handlers only when the li has a direct child `<a>`, and changes nothing else |
| `Nav.MenuItem.Handle` | nav.js:55-93 | running the handler for an event yields the state and effects given by `React` |
| `Nav.MenuItem.Dispatch` | nav.js:55-93 | handling a sequence of events leaves the state `Run(old state, events)` |
| `Nav.Initialise` | nav.js:95-117 | the load loop leaves every root item in the state `Initialised(old state)` |
| `Nav.ServicesScenario` | nav.js:20-71 | a fresh item with a toggle and a submenu reads `"false"` on both attributes after load, `"true"` with the open classes after mouseenter, and only the collapsed classes after mouseleave |
| `Scroll.ScrollTop` | scroll.js:16-21 | the scroll destination is `max(0, scrollY + rect.top - headerOffset - 8)`: never negative, never less than that value, and equal to it whenever it is positive |
| `Scroll.HeaderOffset` | scroll.js:9-14 | `getHeaderOffset()`: 0 without a `.site-header`, otherwise the header's height; its effect on the destination is stated by `Scroll.ScrollTop` and `Scroll.HeaderOnlyRaisesTarget` |
| `Scroll.HeaderOnlyRaisesTarget` | scroll.js:9-21 | without a `.site-header` the header offset is 0 and the destination is `max(0, scrollY + top - 8)`; a header never moves the destination further down |
| `Scroll.PricingScenario` | scroll.js:16-21 | a target with `rect.top` 1200, `scrollY` 0 and an 80 px header gives 1112; a target that would land above the page gives 0 |
| `Scroll.FragmentId` | scroll.js:56-58 | there is no id exactly when the href is null, empty or `"#"`; otherwise the id is the href without its first character |
| `Scroll.FragmentRoundTrip` | scroll.js:56-77 | for an href that starts with `#`, the pushed fragment `'#' + id` reproduces the href |
| `Scroll.IdRoundTrip` | scroll.js:56-77 | the link `'#' + id` for a non-empty id yields that id back |
| `Scroll.DismissedRule` | scroll.js:65-67 | closing open menus removes only `uncollapsed` and `menu-item--expanded`: the item no longer reads as open, other classes and `aria-expanded` are unchanged, and no collapsed class is added |
| `Scroll.Dismissed` | scroll.js:67 | what closing open menus does to one li; its properties are stated by `Scroll.DismissedRule` and `Scroll.DismissLeavesAriaStale` |
| `Scroll.DismissLeavesAriaStale` | scroll.js:65-67 | an open, consistent item closed this way keeps `aria-expanded="true"` and has no class of either pair, so its surfaces disagree, and a later toggle opens it |
| `Scroll.CloseOpenMenus` | scroll.js:65-67 | the loop over every `<li>` that has either open class leaves each `<li>` in the state `Dismissed(old state)` |
| `Scroll.OnClick` | scroll.js:55-78 | with a null, empty or `"#"` href, or no element with the id, the handler leaves every li untouched and the default navigation proceeds; otherwise it prevents the default, closes the open menus, scrolls to `ScrollTop` of the target, and pushes `'#' + id` |
| `Scroll.FirstHeading` | scroll.js:35 | the heading found is the first `h1`/`h2`/`h3`/`header` among the target's descendants in document order, and there is none only when no descendant is one |
| `Scroll.IsHeading` | scroll.js:35 | the `h1,h2,h3,header` selector as a test on the tag name; the first match is characterised by `Scroll.FirstHeading` |
| `Scroll.FocusTarget` | scroll.js:26-48 | the target has a `tabindex` while it is focused: its own, or `"-1"` lent for the call. Its attributes, classes, listener count and rectangle afterwards equal those before. The first heading, if there is one, gains `flash-highlight` and one `animationend` listener, and nothing else changes |
| `Scroll.TabindexAtFocus` | scroll.js:27-31 | the `tabindex` the target carries while `focus()` runs, its own or the lent `"-1"`; stated by `Scroll.FocusTarget` and `Scroll.FocusAndFade` |
| `Scroll.OnAnimationEnd` | scroll.js:38-42 | `animationend` removes `flash-highlight` and unregisters the cleanup listeners; a heading without listeners is unaffected |
| `Scroll.FocusAndFade` | scroll.js:26-48 | after the focus step and the end of the highlight animation, the target's attributes, classes, listeners and rectangle and every descendant's classes, attributes and rectangle are as before the click, provided no descendant already carries `flash-highlight` or a cleanup listener (no earlier highlight is still pending) |

## Left out

- Listener registration, `DOMContentLoaded` and the browser's event dispatch are not modelled. Events are an explicit sequence given to `Nav.MenuItem.Dispatch`, and the scroll handler is one call to `Scroll.OnClick`. Which link gets the scroll handler (the `.menu--main a[href^="#"]` query) is left to the caller.
- Event bubbling is not modelled. Focus events are delivered to the `<li>`, and key presses and clicks to its toggle. A toggle link whose `href` is a `#` link also gets the scroll handler; how the two handlers of such a link interact is not modelled.
- CSS selector matching is replaced by plain inputs:
  - `:scope > a` and `:scope > ul` become the `hasToggle` and `hasSubmenu` flags;
  - `querySelectorAll` results become sequences of distinct objects;
  - `getElementById` becomes a map from id to element;
  - `querySelector('h1,h2,h3,header')` becomes `Scroll.FirstHeading` over the target's descendants, given in document order.
- `Nav.MenuItem` holds the `<li>` together with its toggle link. The toggle is never a separate object, so aliasing between the two is not modelled.
- `getBoundingClientRect` returns floating-point values. The model uses integers, so the `|| 0` that maps a NaN height to 0 has nothing to do: a missing header gives 0, and a zero height is already 0.
- The 350 ms `setTimeout` is not modelled, and neither is the race when links are clicked quickly one after another. `Scroll.FocusTarget` is the timer body as one step.
- Browser effects are returned as values and not performed: the smooth `window.scrollTo` animation, `focus({preventScroll: true})`, and `history.pushState` with its `location.hash` fallback. Both address-bar branches write the same `'#' + id`, so the model does not tell them apart.
- `Nav.Initialise` requires that no item has handlers yet. The page registers them once, on load. A second `attach` would double-register the handlers and is not modelled.
