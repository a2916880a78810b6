/** The dropdown behaviour of the main navigation menu.

    Every top-level `<li>` of the main menu that owns a submenu keeps one
    boolean, "expanded", mirrored onto four surfaces: `aria-expanded` on the
    `<li>`, `aria-expanded` on its toggle link, the `uncollapsed`/`collapsed`
    class pair and the older `menu-item--expanded`/`menu-item--collapsed`
    pair. Hover and focus open and close the item, Enter, Space and a click
    toggle it, Escape closes it.

    The pure functions below (Expand, Toggle, React, Run, Initialised) are the
    specification; class MenuItem performs the same updates in place and is
    proved against them. */
module Nav {
  import opened Dom

  const UNCOLLAPSED := "uncollapsed"
  const COLLAPSED := "collapsed"
  const EXPANDED := "menu-item--expanded"
  const COLLAPSED_COMPAT := "menu-item--collapsed"

  /** The text written into `aria-expanded`. */
  function AriaValue(expanded: bool): string {
    if expanded then "true" else "false"
  }

  /** One of the four presentation classes that record the expanded state. */
  predicate IsStateClass(c: string) {
    c == UNCOLLAPSED || c == EXPANDED || c == COLLAPSED || c == COLLAPSED_COMPAT
  }

  // ---------------------------------------------------------------------------
  // Containment

  /** `container.contains(element)`: the element is the container itself or one
      of its descendants, following `parent` links. Each step drops the node it
      leaves from the map, so the walk ends even on a map with a cycle. */
  function IsInside(element: NodeId, container: NodeId, parent: map<NodeId, NodeId>): bool
    decreases |parent|
  {
    element == container ||
    (element in parent &&
     var rest := parent - {element};
     assert |rest| < |parent| by { assert rest.Keys == parent.Keys - {element}; }
     IsInside(parent[element], container, rest))
  }

  /** `path` walks from a node up through distinct ancestors. */
  ghost predicate IsAncestorPath(path: seq<NodeId>, parent: map<NodeId, NodeId>) {
    && |path| >= 1
    && (forall i :: 0 <= i < |path| - 1 ==> path[i] in parent && parent[path[i]] == path[i + 1])
    && (forall i, j :: 0 <= i < j < |path| ==> path[i] != path[j])
  }

  /** A node inside the container is joined to it by a chain of distinct
      parent links. */
  lemma {:induction false} InsideHasAncestorPath(element: NodeId, container: NodeId, parent: map<NodeId, NodeId>)
    requires IsInside(element, container, parent)
    ensures exists path :: IsAncestorPath(path, parent) && path[0] == element && path[|path| - 1] == container
    decreases |parent|
  {
    if element == container {
      assert IsAncestorPath([element], parent);
    } else {
      var up, rest := parent[element], parent - {element};
      assert rest.Keys == parent.Keys - {element};
      InsideHasAncestorPath(up, container, rest);
      var tail :| IsAncestorPath(tail, rest) && tail[0] == up && tail[|tail| - 1] == container;
      forall i | 0 <= i < |tail| ensures tail[i] != element {
        if i < |tail| - 1 {
          assert tail[i] in rest;
        }
      }
      var path := [element] + tail;
      assert IsAncestorPath(path, parent);
    }
  }

  /** A chain of distinct parent links from a node to the container puts the
      node inside the container. */
  lemma {:induction false} AncestorPathIsInside(path: seq<NodeId>, parent: map<NodeId, NodeId>)
    requires IsAncestorPath(path, parent)
    ensures IsInside(path[0], path[|path| - 1], parent)
    decreases |path|
  {
    if |path| > 1 {
      var rest := parent - {path[0]};
      assert rest.Keys == parent.Keys - {path[0]};
      var tail := path[1..];
      assert IsAncestorPath(tail, rest) by {
        forall i | 0 <= i < |tail| - 1
          ensures tail[i] in rest && rest[tail[i]] == tail[i + 1]
        {
          assert path[i + 1] != path[0];
        }
      }
      AncestorPathIsInside(tail, rest);
      assert path[0] != path[|path| - 1];
    }
  }

  /** `isInside` is exactly "ancestor-or-self": the element is inside the
      container when, and only when, a chain of distinct parent links leads
      from the element to the container. */
  lemma IsInsideIffAncestorPath(element: NodeId, container: NodeId, parent: map<NodeId, NodeId>)
    ensures IsInside(element, container, parent) <==>
            exists path :: IsAncestorPath(path, parent) && path[0] == element && path[|path| - 1] == container
  {
    if IsInside(element, container, parent) {
      InsideHasAncestorPath(element, container, parent);
    }
    forall path | IsAncestorPath(path, parent) && path[0] == element && path[|path| - 1] == container
      ensures IsInside(element, container, parent)
    {
      AncestorPathIsInside(path, parent);
    }
  }

  // ---------------------------------------------------------------------------
  // The observable state of one menu item

  /** Everything observable about one `<li>` and its toggle link. `node` is the
      `<li>` in the document tree; `hasToggle` and `hasSubmenu` say whether it
      has a direct child `<a>` and a direct child `<ul>`; `listening` says
      whether the item's handlers are registered. An absent `aria-expanded`
      attribute is `None`. */
  datatype ItemState = ItemState(
    node: NodeId,
    hasToggle: bool,
    hasSubmenu: bool,
    classes: set<string>,
    liAria: Option<string>,
    toggleAria: Option<string>,
    listening: bool)

  /** The item counts as open when either "open" class is present. */
  predicate IsOpen(s: ItemState) {
    UNCOLLAPSED in s.classes || EXPANDED in s.classes
  }

  /** All surfaces tell the same story: both class pairs agree with each other
      and with `aria-expanded`, and the toggle's attribute equals the item's. */
  predicate Consistent(s: ItemState) {
    var open := UNCOLLAPSED in s.classes;
    && (EXPANDED in s.classes <==> open)
    && (COLLAPSED in s.classes <==> !open)
    && (COLLAPSED_COMPAT in s.classes <==> !open)
    && s.liAria == Some(AriaValue(open))
    && (s.hasToggle ==> s.toggleAria == s.liAria)
  }

  /** `setExpandedState(li, expanded)`: the state after writing every surface
      from one boolean. */
  function Expand(s: ItemState, expanded: bool): (r: ItemState)
    ensures r.liAria == Some(AriaValue(expanded))
    ensures s.hasToggle ==> r.toggleAria == r.liAria
    ensures !s.hasToggle ==> r.toggleAria == s.toggleAria
    ensures expanded ==> UNCOLLAPSED in r.classes && EXPANDED in r.classes &&
                         COLLAPSED !in r.classes && COLLAPSED_COMPAT !in r.classes
    ensures !expanded ==> UNCOLLAPSED !in r.classes && EXPANDED !in r.classes &&
                          COLLAPSED in r.classes && COLLAPSED_COMPAT in r.classes
    ensures forall c :: !IsStateClass(c) ==> (c in r.classes <==> c in s.classes)
    ensures r.node == s.node && r.hasToggle == s.hasToggle && r.hasSubmenu == s.hasSubmenu
    ensures r.listening == s.listening
  {
    var classes :=
      if expanded then s.classes + {UNCOLLAPSED, EXPANDED} - {COLLAPSED, COLLAPSED_COMPAT}
      else s.classes - {UNCOLLAPSED, EXPANDED} + {COLLAPSED, COLLAPSED_COMPAT};
    var aria := Some(AriaValue(expanded));
    s.(classes := classes, liAria := aria, toggleAria := if s.hasToggle then aria else s.toggleAria)
  }

  /** `toggleMenu(li)`: set the opposite of what the classes currently say. */
  function Toggle(s: ItemState): ItemState {
    Expand(s, !IsOpen(s))
  }

  /** Whatever the state before, writing the surfaces leaves them consistent
      and the item open exactly when asked to be. */
  lemma ExpandIsConsistent(s: ItemState, expanded: bool)
    ensures Consistent(Expand(s, expanded))
    ensures IsOpen(Expand(s, expanded)) == expanded
  {
  }

  /** Only the last write counts: in particular `setExpandedState` is
      idempotent, and open followed by close gives the same state as close. */
  lemma ExpandLastWins(s: ItemState, first: bool, second: bool)
    ensures Expand(Expand(s, first), second) == Expand(s, second)
  {
  }

  /** Writing the state a consistent item already shows changes nothing. */
  lemma ExpandConsistentIsIdentity(s: ItemState)
    requires Consistent(s)
    ensures Expand(s, IsOpen(s)) == s
  {
  }

  /** Toggling opens the item exactly when neither "open" class was present,
      and always leaves the surfaces consistent. */
  lemma ToggleFlips(s: ItemState)
    ensures IsOpen(Toggle(s)) <==> UNCOLLAPSED !in s.classes && EXPANDED !in s.classes
    ensures Consistent(Toggle(s))
  {
    ExpandIsConsistent(s, !IsOpen(s));
  }

  /** On an item whose surfaces agree, toggling twice restores every surface. */
  lemma {:induction false} ToggleInvolution(s: ItemState)
    requires Consistent(s)
    ensures Toggle(Toggle(s)) == s
  {
    ExpandIsConsistent(s, !IsOpen(s));
    ExpandLastWins(s, !IsOpen(s), IsOpen(s));
    ExpandConsistentIsIdentity(s);
  }

  /** Conversely, an item that two toggles restore must have had agreeing
      surfaces: toggling twice brings back exactly the consistent items. */
  lemma {:induction false} ToggleInvolutionOnlyIfConsistent(s: ItemState)
    requires Toggle(Toggle(s)) == s
    ensures Consistent(s)
  {
    ExpandIsConsistent(Toggle(s), !IsOpen(Toggle(s)));
  }

  // ---------------------------------------------------------------------------
  // Events

  /** The events `attach` listens to. Hover and focus events arrive at the
      `<li>`; key presses and clicks arrive at the toggle link. `relatedTarget`
      is the node that receives focus, if any. */
  datatype Event =
    | MouseEnter
    | MouseLeave
    | FocusIn
    | FocusOut(relatedTarget: Option<NodeId>)
    | ToggleKeyDown(key: string)
    | ToggleClick

  /** What one event does: the new state, whether the default action was
      prevented, and whether focus was sent back to the toggle. */
  datatype Reaction = Reaction(state: ItemState, defaultPrevented: bool, refocusToggle: bool)

  /** The handlers registered by `attach`; an item without handlers ignores
      every event. */
  function React(s: ItemState, e: Event, parent: map<NodeId, NodeId>): Reaction {
    if !s.listening then Reaction(s, false, false)
    else
      match e
      case MouseEnter => Reaction(Expand(s, true), false, false)
      case MouseLeave => Reaction(Expand(s, false), false, false)
      case FocusIn => Reaction(Expand(s, true), false, false)
      case FocusOut(related) =>
        if related.None? || !IsInside(related.value, s.node, parent)
        then Reaction(Expand(s, false), false, false)
        else Reaction(s, false, false)
      case ToggleKeyDown(key) =>
        if key == "Enter" || key == " " then Reaction(Toggle(s), true, false)
        else if key == "Escape" then Reaction(Expand(s, false), false, true)
        else Reaction(s, false, false)
      case ToggleClick => Reaction(Toggle(s), true, false)
  }

  /** The state after a sequence of events, in order. */
  function Run(s: ItemState, events: seq<Event>, parent: map<NodeId, NodeId>): ItemState
    decreases |events|
  {
    if events == [] then s else Run(React(s, events[0], parent).state, events[1..], parent)
  }

  /** Items without handlers (no submenu, or no toggle link) never react. */
  lemma UnattachedIgnoresEvents(s: ItemState, e: Event, parent: map<NodeId, NodeId>)
    requires !s.listening
    ensures React(s, e, parent) == Reaction(s, false, false)
  {
  }

  /** Hover and focus-in open the item; hover-out closes it. None of them
      prevents a default action or moves focus. */
  lemma PresenceEvents(s: ItemState, parent: map<NodeId, NodeId>)
    requires s.listening
    ensures React(s, MouseEnter, parent) == Reaction(Expand(s, true), false, false)
    ensures React(s, FocusIn, parent) == Reaction(Expand(s, true), false, false)
    ensures React(s, MouseLeave, parent) == Reaction(Expand(s, false), false, false)
    ensures IsOpen(React(s, MouseEnter, parent).state) && !IsOpen(React(s, MouseLeave, parent).state)
  {
    ExpandIsConsistent(s, true);
    ExpandIsConsistent(s, false);
  }

  /** Focus leaving the item closes it unless the newly focused node is inside
      the item, in which case nothing changes. */
  lemma FocusOutRule(s: ItemState, related: Option<NodeId>, parent: map<NodeId, NodeId>)
    requires s.listening
    ensures var r := React(s, FocusOut(related), parent);
            && !r.defaultPrevented && !r.refocusToggle
            && (related.None? || !IsInside(related.value, s.node, parent) ==>
                  r.state == Expand(s, false) && !IsOpen(r.state))
            && (related.Some? && IsInside(related.value, s.node, parent) ==> r.state == s)
  {
    ExpandIsConsistent(s, false);
  }

  /** Focus moving to a node whose parent chain reaches the item keeps it as
      it is. */
  lemma FocusOutToDescendant(s: ItemState, path: seq<NodeId>, parent: map<NodeId, NodeId>)
    requires s.listening
    requires IsAncestorPath(path, parent) && path[|path| - 1] == s.node
    ensures React(s, FocusOut(Some(path[0])), parent) == Reaction(s, false, false)
  {
    IsInsideIffAncestorPath(path[0], s.node, parent);
  }

  /** Enter and Space prevent navigation and toggle; Escape closes and sends
      focus back to the toggle; any other key does nothing. */
  lemma KeyDownRule(s: ItemState, key: string, parent: map<NodeId, NodeId>)
    requires s.listening
    ensures var r := React(s, ToggleKeyDown(key), parent);
            && (key == "Enter" || key == " " ==> r == Reaction(Toggle(s), true, false))
            && (key == "Escape" ==> r == Reaction(Expand(s, false), false, true) && !IsOpen(r.state))
            && (key != "Enter" && key != " " && key != "Escape" ==> r == Reaction(s, false, false))
  {
    ExpandIsConsistent(s, false);
  }

  /** A click on the toggle always prevents navigation and toggles. */
  lemma ClickRule(s: ItemState, parent: map<NodeId, NodeId>)
    requires s.listening
    ensures var r := React(s, ToggleClick, parent);
            r.defaultPrevented && !r.refocusToggle && r.state == Toggle(s)
            && (IsOpen(r.state) <==> !IsOpen(s))
  {
    ToggleFlips(s);
  }

  /** No event changes the item's identity, its structure or whether it is
      listening, and every reaction leaves a consistent item consistent. */
  lemma ReactKeepsConsistent(s: ItemState, e: Event, parent: map<NodeId, NodeId>)
    requires Consistent(s)
    ensures var r := React(s, e, parent).state;
            Consistent(r) && r.node == s.node && r.hasToggle == s.hasToggle &&
            r.hasSubmenu == s.hasSubmenu && r.listening == s.listening
  {
    ExpandIsConsistent(s, true);
    ExpandIsConsistent(s, false);
    ExpandIsConsistent(s, !IsOpen(s));
  }

  /** Running one more event is reacting to it after the run so far. */
  lemma {:induction false} RunSnoc(s: ItemState, events: seq<Event>, e: Event, parent: map<NodeId, NodeId>)
    ensures Run(s, events + [e], parent) == React(Run(s, events, parent), e, parent).state
    decreases |events|
  {
    if events == [] {
      assert [] + [e] == [e];
    } else {
      assert (events + [e])[1..] == events[1..] + [e];
      RunSnoc(React(s, events[0], parent).state, events[1..], e, parent);
    }
  }

  /** A consistent item stays consistent under any sequence of events. */
  lemma {:induction false} RunKeepsConsistent(s: ItemState, events: seq<Event>, parent: map<NodeId, NodeId>)
    requires Consistent(s)
    ensures Consistent(Run(s, events, parent))
    ensures Run(s, events, parent).listening == s.listening
    decreases |events|
  {
    if events != [] {
      ReactKeepsConsistent(s, events[0], parent);
      RunKeepsConsistent(React(s, events[0], parent).state, events[1..], parent);
    }
  }

  /** The two `aria-expanded` attributes agree: the toggle's equals the
      `<li>`'s. This is the part of `Consistent` that page load can already
      establish. */
  predicate AriaAgree(s: ItemState) {
    s.hasToggle ==> s.toggleAria == s.liAria
  }

  /** Whatever the classes say, no sequence of events makes the two
      `aria-expanded` attributes disagree once they agree. */
  lemma {:induction false} RunKeepsAriaAgree(s: ItemState, events: seq<Event>, parent: map<NodeId, NodeId>)
    requires AriaAgree(s)
    ensures AriaAgree(Run(s, events, parent))
    decreases |events|
  {
    if events != [] {
      RunKeepsAriaAgree(React(s, events[0], parent).state, events[1..], parent);
    }
  }

  /** Whatever happened before, a listening item that the pointer has just left
      is collapsed on every surface. */
  lemma {:induction false} LeaveCollapses(s: ItemState, events: seq<Event>, parent: map<NodeId, NodeId>)
    requires s.listening
    ensures var r := Run(s, events + [MouseLeave], parent);
            !IsOpen(r) && Consistent(r) && r.liAria == Some("false")
  {
    RunSnoc(s, events, MouseLeave, parent);
    var before := Run(s, events, parent);
    assert before.listening by {
      RunKeepsListening(s, events, parent);
    }
    ExpandIsConsistent(before, false);
  }

  /** Events never register or remove handlers. */
  lemma {:induction false} RunKeepsListening(s: ItemState, events: seq<Event>, parent: map<NodeId, NodeId>)
    ensures Run(s, events, parent).listening == s.listening
    ensures Run(s, events, parent).hasToggle == s.hasToggle
    decreases |events|
  {
    if events != [] {
      RunKeepsListening(React(s, events[0], parent).state, events[1..], parent);
    }
  }

  // ---------------------------------------------------------------------------
  // Page-load initialisation

  /** What the load handler does to one root item: an item with a direct child
      `<ul>` gets `aria-expanded="false"` wherever the attribute is missing, on
      the toggle (if any) and on the `<li>`, and then `attach` registers its
      handlers if it has a toggle. An item without a submenu is left alone. */
  function Initialised(s: ItemState): ItemState {
    if !s.hasSubmenu then s
    else
      s.(toggleAria := if s.hasToggle && s.toggleAria.None? then Some("false") else s.toggleAria,
         liAria := if s.liAria.None? then Some("false") else s.liAria,
         listening := s.hasToggle)
  }

  /** Initialisation only fills in missing attributes and never touches
      classes; on an item whose attributes were both missing it leaves them
      equal and "false". */
  lemma InitialisedRule(s: ItemState)
    requires !s.listening
    ensures var r := Initialised(s);
            && r.classes == s.classes && r.node == s.node
            && r.hasToggle == s.hasToggle && r.hasSubmenu == s.hasSubmenu
            && (!s.hasSubmenu ==> r == s)
            && (s.hasSubmenu ==> r.liAria == (if s.liAria.None? then Some("false") else s.liAria))
            && (s.hasSubmenu && s.hasToggle ==>
                  r.toggleAria == (if s.toggleAria.None? then Some("false") else s.toggleAria))
            && (!s.hasToggle ==> r.toggleAria == s.toggleAria)
            && (r.listening <==> s.hasSubmenu && s.hasToggle)
            && (s.hasSubmenu && s.hasToggle && s.liAria.None? && s.toggleAria.None? ==>
                  r.liAria == r.toggleAria == Some("false"))
  {
  }

  /** Page load leaves the two `aria-expanded` attributes of an item with a
      submenu in agreement whenever each was missing or already "false" (in
      particular when both were missing), and from then on every sequence of
      events keeps them in agreement. */
  lemma {:induction false} InitialisedAriaAgree(s: ItemState, events: seq<Event>, parent: map<NodeId, NodeId>)
    requires s.hasSubmenu
    requires s.liAria.None? || s.liAria == Some("false")
    requires s.toggleAria.None? || s.toggleAria == Some("false")
    ensures AriaAgree(Initialised(s))
    ensures Initialised(s).liAria == Some("false")
    ensures AriaAgree(Run(Initialised(s), events, parent))
  {
    RunKeepsAriaAgree(Initialised(s), events, parent);
  }

  // ---------------------------------------------------------------------------
  // The in-place model

  /** One `<li>` of the document with its direct child toggle link folded in.
      Every method updates the fields in place, as nav.js updates the DOM. */
  class MenuItem {
    const node: NodeId
    const hasToggle: bool
    const hasSubmenu: bool
    var classes: set<string>
    var liAria: Option<string>
    var toggleAria: Option<string>
    var listening: bool

    function State(): ItemState
      reads this
    {
      ItemState(node, hasToggle, hasSubmenu, classes, liAria, toggleAria, listening)
    }

    constructor (node: NodeId, hasToggle: bool, hasSubmenu: bool, classes: set<string>,
                 liAria: Option<string>, toggleAria: Option<string>)
      ensures State() == ItemState(node, hasToggle, hasSubmenu, classes, liAria,
                                   if hasToggle then toggleAria else None, false)
    {
      this.node := node;
      this.hasToggle := hasToggle;
      this.hasSubmenu := hasSubmenu;
      this.classes := classes;
      this.liAria := liAria;
      this.toggleAria := if hasToggle then toggleAria else None;
      listening := false;
    }

    /** `setExpandedState(li, expanded)`. */
    method SetExpandedState(expanded: bool)
      modifies this
      ensures State() == Expand(old(State()), expanded)
    {
      liAria := Some(AriaValue(expanded));
      if hasToggle {
        toggleAria := Some(AriaValue(expanded));
      }
      if expanded {
        classes := classes + {UNCOLLAPSED};
        classes := classes + {EXPANDED};
        classes := classes - {COLLAPSED};
        classes := classes - {COLLAPSED_COMPAT};
      } else {
        classes := classes - {UNCOLLAPSED};
        classes := classes - {EXPANDED};
        classes := classes + {COLLAPSED};
        classes := classes + {COLLAPSED_COMPAT};
      }
    }

    /** `openMenu(li)`. */
    method Open()
      modifies this
      ensures State() == Expand(old(State()), true)
    {
      SetExpandedState(true);
    }

    /** `closeMenu(li)`. */
    method Close()
      modifies this
      ensures State() == Expand(old(State()), false)
    {
      SetExpandedState(false);
    }

    /** `toggleMenu(li)`. */
    method ToggleMenu()
      modifies this
      ensures State() == Toggle(old(State()))
    {
      var isOpen := UNCOLLAPSED in classes || EXPANDED in classes;
      SetExpandedState(!isOpen);
    }

    /** `attach(li)`: handlers are registered only when the item has a toggle. */
    method Attach()
      requires !listening
      modifies this
      ensures State() == old(State()).(listening := hasToggle)
    {
      if !hasToggle {
        return;
      }
      listening := true;
    }

    /** Runs the handler that `attach` registered for the event, if any. */
    method Handle(e: Event, parent: map<NodeId, NodeId>) returns (defaultPrevented: bool, refocusToggle: bool)
      modifies this
      ensures Reaction(State(), defaultPrevented, refocusToggle) == React(old(State()), e, parent)
    {
      defaultPrevented, refocusToggle := false, false;
      if !listening {
        return;
      }
      match e
      case MouseEnter =>
        Open();
      case MouseLeave =>
        Close();
      case FocusIn =>
        Open();
      case FocusOut(related) =>
        if related.None? || !IsInside(related.value, node, parent) {
          Close();
        }
      case ToggleKeyDown(key) =>
        if key == "Enter" || key == " " {
          defaultPrevented := true;
          ToggleMenu();
        } else if key == "Escape" {
          Close();
          refocusToggle := true;
        }
      case ToggleClick =>
        defaultPrevented := true;
        ToggleMenu();
    }

    /** Dispatches a sequence of events to the item, one at a time. */
    method Dispatch(events: seq<Event>, parent: map<NodeId, NodeId>)
      modifies this
      ensures State() == Run(old(State()), events, parent)
    {
      var i := 0;
      while i < |events|
        invariant 0 <= i <= |events|
        invariant State() == Run(old(State()), events[..i], parent)
      {
        RunSnoc(old(State()), events[..i], events[i], parent);
        assert events[..i + 1] == events[..i] + [events[i]];
        var _, _ := Handle(events[i], parent);
        i := i + 1;
      }
      assert events[..i] == events;
    }
  }

  /** The `DOMContentLoaded` handler: for each root item of the main menu, in
      document order, initialise missing `aria-expanded` attributes and attach
      the handlers, skipping items without a direct child `<ul>`. */
  method Initialise(items: seq<MenuItem>)
    requires forall i, j :: 0 <= i < j < |items| ==> items[i] != items[j]
    requires forall i :: 0 <= i < |items| ==> !items[i].listening
    modifies set i | 0 <= i < |items| :: items[i]
    ensures forall i :: 0 <= i < |items| ==> items[i].State() == Initialised(old(items[i].State()))
  {
    var n := 0;
    while n < |items|
      invariant 0 <= n <= |items|
      invariant forall i :: 0 <= i < n ==> items[i].State() == Initialised(old(items[i].State()))
      invariant forall i :: n <= i < |items| ==> items[i].State() == old(items[i].State())
    {
      var li := items[n];
      if li.hasSubmenu {
        if li.hasToggle && li.toggleAria.None? {
          li.toggleAria := Some("false");
        }
        if li.liAria.None? {
          li.liAria := Some("false");
        }
        li.Attach();
      }
      n := n + 1;
    }
  }

  /** The "Services" walk-through: a fresh item with a toggle and a submenu and
      no attributes is initialised, hovered and left. */
  method ServicesScenario() returns (item: MenuItem)
    ensures item.liAria == item.toggleAria == Some("false")
    ensures item.classes == {COLLAPSED, COLLAPSED_COMPAT}
  {
    item := new MenuItem(1, true, true, {}, None, None);
    Initialise([item]);
    assert [item][0] == item;
    assert item.liAria == item.toggleAria == Some("false") && item.listening;
    var _, _ := item.Handle(MouseEnter, map[]);
    assert item.liAria == item.toggleAria == Some("true");
    assert UNCOLLAPSED in item.classes && EXPANDED in item.classes;
    assert COLLAPSED !in item.classes && COLLAPSED_COMPAT !in item.classes;
    var _, _ := item.Handle(MouseLeave, map[]);
    assert item.classes == {COLLAPSED, COLLAPSED_COMPAT};
  }
}
