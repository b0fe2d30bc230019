/** The educator sidebar's collapse state (app.js:386-403 and the teachers'
    button of the welcome modal, app.js:422): the `collapsed` class on the
    app root, the toggle button's `aria-expanded` and text, and the scroll
    position of the sidebar body. Padding sync and the modal are not modelled. */
module Sidebar {
  import opened Dom

  /** `collapsed`: the app root has the `collapsed` class. `bodyScrollTop`:
      the scroll target of the sidebar body. */
  datatype State = State(collapsed: bool, ariaExpanded: string, toggleText: string, bodyScrollTop: nat)

  /** The toggle button describes the sidebar truthfully. */
  predicate Labelled(s: State) {
    s.ariaExpanded == BoolAttr(!s.collapsed) && s.toggleText == (if s.collapsed then "Show" else "Hide")
  }

  /** The toggle button's handler: flip the class, then relabel from it. */
  function Toggle(s: State): (t: State)
    ensures t.collapsed == !s.collapsed && Labelled(t)
    ensures t.bodyScrollTop == s.bodyScrollTop
  {
    var collapsed := !s.collapsed;
    State(collapsed, BoolAttr(!collapsed), if collapsed then "Show" else "Hide", s.bodyScrollTop)
  }

  /** Un-collapsing, as the header button and the welcome modal's teachers'
      button both do it. */
  function Expand(s: State): (t: State)
    ensures !t.collapsed && Labelled(t) && t.bodyScrollTop == s.bodyScrollTop
  {
    s.(collapsed := false, ariaExpanded := "true", toggleText := "Hide")
  }

  /** The header button's handler: open a collapsed sidebar, otherwise
      scroll its body (when it exists) to the top and change nothing else. */
  function HeaderClick(s: State, hasBody: bool): (t: State)
    ensures !t.collapsed
    ensures s.collapsed ==> Labelled(t) && t.bodyScrollTop == s.bodyScrollTop
    ensures !s.collapsed ==> t.ariaExpanded == s.ariaExpanded && t.toggleText == s.toggleText
    ensures !s.collapsed ==> t.bodyScrollTop == if hasBody then 0 else s.bodyScrollTop
  {
    if s.collapsed then Expand(s)
    else if hasBody then s.(bodyScrollTop := 0)
    else s
  }

  /** Two toggles give back a labelled state exactly. */
  lemma ToggleTwice(s: State)
    requires Labelled(s)
    ensures Toggle(Toggle(s)) == s
  {
  }

  /** A toggle relabels whatever the button said before, so an unlabelled
      state does not come back after two toggles: it becomes labelled. */
  lemma ToggleTwiceRelabels(s: State)
    requires !Labelled(s)
    ensures Toggle(Toggle(s)) != s && Toggle(Toggle(s)).collapsed == s.collapsed
  {
  }

  /** On an open sidebar the header button is idempotent. */
  lemma HeaderClickIdempotentWhenOpen(s: State, hasBody: bool)
    requires !s.collapsed
    ensures HeaderClick(HeaderClick(s, hasBody), hasBody) == HeaderClick(s, hasBody)
  {
  }

  /** Every handler keeps the button labelled. */
  lemma HandlersKeepLabelled(s: State, hasBody: bool)
    requires Labelled(s)
    ensures Labelled(Toggle(s)) && Labelled(HeaderClick(s, hasBody)) && Labelled(Expand(s))
  {
  }

  class SidebarUi {
    var collapsed: bool
    var ariaExpanded: string
    var toggleText: string
    var bodyScrollTop: nat
    const hasBody: bool

    function Snapshot(): State
      reads this
    {
      State(collapsed, ariaExpanded, toggleText, bodyScrollTop)
    }

    constructor (initial: State, hasBody: bool)
      ensures Snapshot() == initial && this.hasBody == hasBody
    {
      collapsed, ariaExpanded, toggleText, bodyScrollTop := initial.collapsed, initial.ariaExpanded, initial.toggleText, initial.bodyScrollTop;
      this.hasBody := hasBody;
    }

    /** `eduToggle`'s click listener (app.js:386-391). */
    method OnToggleClick()
      modifies this
      ensures Snapshot() == Toggle(old(Snapshot()))
    {
      collapsed := !collapsed;
      ariaExpanded := BoolAttr(!collapsed);
      toggleText := if collapsed then "Show" else "Hide";
    }

    /** The header button's click listener (app.js:393-403). */
    method OnHeaderClick()
      modifies this
      ensures Snapshot() == HeaderClick(old(Snapshot()), hasBody)
    {
      if collapsed {
        collapsed := false;
        ariaExpanded := "true";
        toggleText := "Hide";
      } else if hasBody {
        bodyScrollTop := 0;
      }
    }

    /** The sidebar part of the welcome modal's teachers' button (app.js:422). */
    method OnWelcomeTeachers()
      modifies this
      ensures Snapshot() == Expand(old(Snapshot()))
    {
      collapsed := false;
      ariaExpanded := "true";
      toggleText := "Hide";
    }
  }
}
