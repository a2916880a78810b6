/** Same-page navigation: a click on a `#id` link of the main menu closes any
    open menu, scrolls so the target sits just below the fixed site header,
    records `#id` in the address bar, and later moves focus to the target and
    flashes its first heading.

    Geometry is integer-valued. The smooth-scroll animation, the 350 ms timer,
    `focus()` and `history.pushState` are effects outside the model: the click
    handler returns the scroll position and the fragment it would pass to
    them, and the deferred step returns the `tabindex` the target had while it
    was focused. */
module Scroll {
  import opened Dom
  import Nav

  /** The gap left between the header and the target, in pixels. */
  const GAP := 8
  /** The class names scroll.js removes to close a menu (its own copies of the
      menu vocabulary). */
  const OPEN_CLASS := "uncollapsed"
  const OPEN_CLASS_COMPAT := "menu-item--expanded"
  const HIGHLIGHT := "flash-highlight"

  // ---------------------------------------------------------------------------
  // Scroll position

  /** `getHeaderOffset()`: the rendered height of the `.site-header` element,
      or 0 when the page has none. `header` is its bounding rectangle. */
  function HeaderOffset(header: Option<Rect>): nat {
    if header.None? then 0 else header.value.height
  }

  /** The vertical position `smoothScrollTo` scrolls to: the target's top in
      document coordinates, less the header and the gap, but never above the
      top of the page. */
  function ScrollTop(scrollY: int, target: Rect, header: Option<Rect>): (r: nat)
    ensures r >= scrollY + target.top - HeaderOffset(header) - GAP
    ensures r == 0 || r == scrollY + target.top - HeaderOffset(header) - GAP
  {
    var targetY := scrollY + target.top - HeaderOffset(header) - GAP;
    if targetY > 0 then targetY else 0
  }

  /** Without a header only the gap is left above the target; a header can
      only make the scroll stop higher up, never lower. */
  lemma HeaderOnlyRaisesTarget(scrollY: int, target: Rect, header: Option<Rect>)
    ensures ScrollTop(scrollY, target, header) <= ScrollTop(scrollY, target, None)
    ensures var y := scrollY + target.top - GAP;
            ScrollTop(scrollY, target, None) == if y > 0 then y else 0
  {
  }

  /** A section 1200 px below the top of an unscrolled page, under an 80 px
      header, is scrolled to 1112; one that would land above the page top is
      scrolled to 0. */
  lemma PricingScenario()
    ensures ScrollTop(0, Rect(1200, 400), Some(Rect(0, 80))) == 1112
    ensures ScrollTop(0, Rect(50, 400), Some(Rect(0, 80))) == 0
    ensures FragmentId(Some("#pricing")) == Some("pricing")
  {
  }

  // ---------------------------------------------------------------------------
  // From link to id

  /** The id the click handler looks up: the `href` without its first
      character, or nothing when the link has no `href`, an empty one, or
      exactly "#". */
  function FragmentId(href: Option<string>): (r: Option<string>)
    ensures r.None? <==> href.None? || href.value == "" || href.value == "#"
    ensures r.Some? ==> [href.value[0]] + r.value == href.value
  {
    if href.None? || href.value == "" || href.value == "#" then None
    else Some(href.value[1..])
  }

  /** For a `#`-link the fragment written to the address bar, `'#' + id`, is
      the link's own `href`. */
  lemma FragmentRoundTrip(href: string)
    requires |href| > 1 && href[0] == '#'
    ensures FragmentId(Some(href)).Some?
    ensures "#" + FragmentId(Some(href)).value == href
  {
    var id := FragmentId(Some(href)).value;
    assert [href[0]] + id == href;
  }

  /** And the other way: the link `'#' + id` for a non-empty id leads back to
      that id. */
  lemma {:induction false} IdRoundTrip(id: string)
    requires id != ""
    ensures FragmentId(Some("#" + id)) == Some(id)
  {
    var href := "#" + id;
    assert href != "#" by { assert |href| == |id| + 1 > 1; }
    assert href[1..] == id;
  }

  // ---------------------------------------------------------------------------
  // Closing open menus

  /** What the click handler does to one `<li>`: drop both "open" classes. It
      touches no other class and no attribute. */
  function Dismissed(s: Nav.ItemState): Nav.ItemState {
    s.(classes := s.classes - {OPEN_CLASS, OPEN_CLASS_COMPAT})
  }

  /** A dismissed item no longer counts as open for the menu (the two files
      agree on the class names), keeps every other class, and gets no
      "collapsed" class; an item that was not open is left as it was. */
  lemma DismissedRule(s: Nav.ItemState)
    ensures !Nav.IsOpen(Dismissed(s))
    ensures forall c :: c != Nav.UNCOLLAPSED && c != Nav.EXPANDED ==>
              (c in Dismissed(s).classes <==> c in s.classes)
    ensures Dismissed(s).liAria == s.liAria && Dismissed(s).toggleAria == s.toggleAria
    ensures Dismissed(s).listening == s.listening
    ensures !Nav.IsOpen(s) ==> Dismissed(s) == s
  {
    if !Nav.IsOpen(s) {
      assert s.classes - {OPEN_CLASS, OPEN_CLASS_COMPAT} == s.classes;
    }
  }

  /** Closing through the scroll helper bypasses `setExpandedState`: an open
      item whose surfaces agreed is left with `aria-expanded="true"` and with
      neither class of either pair, so its surfaces no longer agree. A later
      toggle still reads it as closed and opens it. */
  lemma DismissLeavesAriaStale(s: Nav.ItemState)
    requires Nav.Consistent(s) && Nav.IsOpen(s)
    ensures var r := Dismissed(s);
            && r.liAria == Some("true")
            && Nav.UNCOLLAPSED !in r.classes && Nav.COLLAPSED !in r.classes
            && Nav.EXPANDED !in r.classes && Nav.COLLAPSED_COMPAT !in r.classes
            && !Nav.Consistent(r)
            && Nav.IsOpen(Nav.Toggle(r))
  {
    var r := Dismissed(s);
    assert Nav.UNCOLLAPSED in s.classes;
    assert Nav.COLLAPSED !in r.classes;
    Nav.ToggleFlips(r);
  }

  /** Removes the "open" classes from every `<li>` of the document that has
      either of them. `lis` are all the `<li>` elements, each once. */
  method CloseOpenMenus(lis: seq<Nav.MenuItem>)
    requires forall i, j :: 0 <= i < j < |lis| ==> lis[i] != lis[j]
    modifies set i | 0 <= i < |lis| :: lis[i]
    ensures forall i :: 0 <= i < |lis| ==> lis[i].State() == Dismissed(old(lis[i].State()))
  {
    var n := 0;
    while n < |lis|
      invariant 0 <= n <= |lis|
      invariant forall i :: 0 <= i < n ==> lis[i].State() == Dismissed(old(lis[i].State()))
      invariant forall i :: n <= i < |lis| ==> lis[i].State() == old(lis[i].State())
    {
      var li := lis[n];
      if OPEN_CLASS in li.classes || OPEN_CLASS_COMPAT in li.classes {
        li.classes := li.classes - {OPEN_CLASS, OPEN_CLASS_COMPAT};
      } else {
        assert li.classes - {OPEN_CLASS, OPEN_CLASS_COMPAT} == li.classes;
      }
      n := n + 1;
    }
  }

  // ---------------------------------------------------------------------------
  // The click handler

  /** What a click on a same-page link leads to. `FollowDefault`: the handler
      returned early, so the browser navigates as usual and nothing else
      happens. `ScrolledTo`: default navigation was prevented, open menus were
      closed, the window scrolls to `top`, `fragment` is pushed to the address
      bar and the deferred focus step is scheduled for `target`. */
  datatype ClickOutcome =
    | FollowDefault
    | ScrolledTo(target: Element, top: nat, fragment: string)

  /** The click handler of a main-menu `#` link. `byId` is the document's
      `getElementById`, which never finds anything for the empty id; `lis` are
      all `<li>` elements; `scrollY` and `header`
      are read when the click happens. */
  method OnClick(href: Option<string>, byId: map<string, Element>, lis: seq<Nav.MenuItem>,
                 scrollY: int, header: Option<Rect>) returns (outcome: ClickOutcome)
    requires "" !in byId
    requires forall i, j :: 0 <= i < j < |lis| ==> lis[i] != lis[j]
    modifies set i | 0 <= i < |lis| :: lis[i]
    ensures outcome.FollowDefault? <==> FragmentId(href).None? || FragmentId(href).value !in byId
    ensures outcome.FollowDefault? ==>
              forall i :: 0 <= i < |lis| ==> lis[i].State() == old(lis[i].State())
    ensures outcome.ScrolledTo? ==>
              var id := FragmentId(href).value;
              && outcome.target == byId[id]
              && outcome.top == ScrollTop(scrollY, byId[id].rect, header)
              && outcome.fragment == "#" + id
              && forall i :: 0 <= i < |lis| ==> lis[i].State() == Dismissed(old(lis[i].State()))
  {
    if href.None? || href.value == "" || href.value == "#" {
      return FollowDefault;
    }
    var id := href.value[1..];
    if id !in byId {
      return FollowDefault;
    }
    var target := byId[id];
    CloseOpenMenus(lis);
    var top := ScrollTop(scrollY, target.rect, header);
    outcome := ScrolledTo(target, top, "#" + id);
  }

  // ---------------------------------------------------------------------------
  // The deferred focus step

  /** The headings the highlight looks for. */
  predicate IsHeading(e: Element) {
    e.tag == "h1" || e.tag == "h2" || e.tag == "h3" || e.tag == "header"
  }

  /** `element.querySelector('h1,h2,h3,header')`: the position of the first
      heading among the target's descendants, listed in document order. */
  function FirstHeading(descendants: seq<Element>): (r: Option<nat>)
    ensures r.Some? ==> r.value < |descendants| && IsHeading(descendants[r.value])
    ensures r.Some? ==> forall j :: 0 <= j < r.value ==> !IsHeading(descendants[j])
    ensures r.None? ==> forall j :: 0 <= j < |descendants| ==> !IsHeading(descendants[j])
  {
    if descendants == [] then None
    else if IsHeading(descendants[0]) then Some(0)
    else match FirstHeading(descendants[1..])
      case None => None
      case Some(k) => Some(k + 1)
  }

  /** The `tabindex` the target carries while `focus()` runs: its own, or "-1"
      granted for the call. */
  function TabindexAtFocus(attributes: map<string, string>): string {
    if "tabindex" in attributes then attributes["tabindex"] else "-1"
  }

  /** The timer body of `smoothScrollTo`: make the target focusable if it is
      not, focus it, flash its first heading, and take back the `tabindex` it
      was lent. `descendants` are the target's descendants in document order.
      Returns the target's `tabindex` at the moment of focus and the heading
      that was flashed. */
  method FocusTarget(target: Element, descendants: seq<Element>)
      returns (focusedWith: string, heading: Option<Element>)
    requires target !in descendants
    modifies target, set i | 0 <= i < |descendants| :: descendants[i]
    ensures target.attributes == old(target.attributes)
    ensures target.classes == old(target.classes)
    ensures target.animationEndListeners == old(target.animationEndListeners)
    ensures target.rect == old(target.rect)
    ensures focusedWith == TabindexAtFocus(old(target.attributes))
    ensures FirstHeading(descendants).None? ==> heading.None?
    ensures FirstHeading(descendants).Some? ==>
              heading == Some(descendants[FirstHeading(descendants).value])
    ensures heading.Some? ==>
              && heading.value.classes == old(heading.value.classes) + {HIGHLIGHT}
              && heading.value.animationEndListeners == old(heading.value.animationEndListeners) + 1
              && heading.value.attributes == old(heading.value.attributes)
    ensures forall d :: d in descendants && Some(d) != heading ==>
              d.classes == old(d.classes) && d.attributes == old(d.attributes) &&
              d.animationEndListeners == old(d.animationEndListeners)
    ensures forall d :: d in descendants ==> d.rect == old(d.rect)
  {
    var hadTabIndex := "tabindex" in target.attributes;
    if !hadTabIndex {
      target.attributes := target.attributes["tabindex" := "-1"];
    }
    focusedWith := target.attributes["tabindex"];

    var first := FirstHeading(descendants);
    heading := None;
    if first.Some? {
      var h := descendants[first.value];
      h.classes := h.classes + {HIGHLIGHT};
      h.animationEndListeners := h.animationEndListeners + 1;
      heading := Some(h);
    }

    if !hadTabIndex {
      target.attributes := target.attributes - {"tabindex"};
      assert target.attributes == old(target.attributes);
    }
  }

  /** `animationend` on a flashed heading: every registered cleanup removes
      the highlight and unregisters itself. A heading without listeners is not
      affected. */
  method OnAnimationEnd(heading: Element)
    modifies heading
    ensures old(heading.animationEndListeners) == 0 ==>
              heading.classes == old(heading.classes) && heading.animationEndListeners == 0
    ensures old(heading.animationEndListeners) > 0 ==>
              heading.classes == old(heading.classes) - {HIGHLIGHT} && heading.animationEndListeners == 0
    ensures heading.attributes == old(heading.attributes) && heading.rect == old(heading.rect)
  {
    if heading.animationEndListeners > 0 {
      heading.classes := heading.classes - {HIGHLIGHT};
      heading.animationEndListeners := 0;
    }
  }

  /** Focus step followed by the end of the highlight animation: the target
      and, if it did not already carry the highlight class, the heading look
      exactly as before the click, and the target was focusable when focused. */
  method FocusAndFade(target: Element, descendants: seq<Element>) returns (focusedWith: string)
    requires target !in descendants
    requires forall d :: d in descendants ==> HIGHLIGHT !in d.classes && d.animationEndListeners == 0
    modifies target, set i | 0 <= i < |descendants| :: descendants[i]
    ensures focusedWith == TabindexAtFocus(old(target.attributes))
    ensures target.attributes == old(target.attributes)
    ensures target.classes == old(target.classes)
    ensures target.animationEndListeners == old(target.animationEndListeners)
    ensures target.rect == old(target.rect)
    ensures forall d :: d in descendants ==>
              d.classes == old(d.classes) && d.attributes == old(d.attributes) &&
              d.animationEndListeners == 0 && d.rect == old(d.rect)
  {
    var heading;
    focusedWith, heading := FocusTarget(target, descendants);
    if heading.Some? {
      var h := heading.value;
      OnAnimationEnd(h);
      assert h.classes == old(h.classes);
    }
  }
}
