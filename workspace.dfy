/** `WorkspaceState` of src/workspace.rs: the widget around the node container. Its
    event callbacks buffer one pending pointer or key action, the node menu buffers one
    add-node request, and each tick it opens the node menu when asked and hands the
    container either the add-node request or the pending action. */
module Workspace {
  import opened Wrappers
  import opened Geometry
  import opened CoreGraph
  import opened ContainerSpec
  import opened Container

  datatype Key = DeleteKey | OtherKey
  datatype ButtonState = Down | Up

  /** The events the workspace's template subscribes to. */
  datatype Event =
    | MouseMove(point: Point)
    | MouseDown(mouse: Mouse)
    | MouseUp(mouse: Mouse)
    | KeyDown(key: Key, state: ButtonState)

  /** The action a template callback records for an event: pointer events map one to
      one, and a key event records Delete only for the Delete key going down. */
  function ActionOf(ev: Event): (r: Option<Action>)
    ensures r.None? <==> ev.KeyDown? && !(ev.key == DeleteKey && ev.state == Down)
    ensures r == Some(Delete) <==> ev == KeyDown(DeleteKey, Down)
    ensures r.Some? && r.value.Press? <==> ev.MouseDown?
    ensures r.Some? && r.value.Release? <==> ev.MouseUp?
    ensures r.Some? && r.value.Move? <==> ev.MouseMove?
    ensures r.Some? && (r.value.Press? || r.value.Release?) ==> r.value.mouse == ev.mouse
    ensures r.Some? && r.value.Move? ==> r.value.point == ev.point
  {
    match ev
    case MouseMove(p) => Some(Move(p))
    case MouseDown(m) => Some(Press(m))
    case MouseUp(m) => Some(Release(m))
    case KeyDown(k, s) => if k == DeleteKey && s == Down then Some(Delete) else None
  }

  /** The pending action after the callbacks for `evs` ran, starting from `a`: each
      event that records an action overwrites the one before. */
  function PendingAfter(a: Option<Action>, evs: seq<Event>): Option<Action>
  {
    if evs == [] then a
    else
      var before := PendingAfter(a, evs[..|evs| - 1]);
      var r := ActionOf(evs[|evs| - 1]);
      if r.Some? then r else before
  }

  /** Running the callbacks for `xs` and then for `ys` is running them for `xs + ys`. */
  lemma {:induction false} PendingAfterConcat(a: Option<Action>, xs: seq<Event>, ys: seq<Event>)
    ensures PendingAfter(a, xs + ys) == PendingAfter(PendingAfter(a, xs), ys)
  {
    if ys == [] {
      assert xs + ys == xs;
    } else {
      assert (xs + ys)[..|xs + ys| - 1] == xs + ys[..|ys| - 1];
      PendingAfterConcat(a, xs, ys[..|ys| - 1]);
    }
  }

  /** Only the last recording event survives: the pending action is the action of the
      last event that records one, or the starting one when none does. */
  lemma {:induction false} PendingAfterIsLast(a: Option<Action>, evs: seq<Event>)
    ensures var r := PendingAfter(a, evs);
            (r == a && forall i :: 0 <= i < |evs| ==> ActionOf(evs[i]).None?) ||
            (exists i :: 0 <= i < |evs| && r == ActionOf(evs[i]) && r.Some? &&
                         forall j :: i < j < |evs| ==> ActionOf(evs[j]).None?)
  {
    if evs != [] {
      var front := evs[..|evs| - 1];
      PendingAfterIsLast(a, front);
      assert forall i :: 0 <= i < |front| ==> front[i] == evs[i];
      var last := |evs| - 1;
      if ActionOf(evs[last]).None? {
        var r := PendingAfter(a, front);
        if !(r == a && forall i :: 0 <= i < |front| ==> ActionOf(front[i]).None?) {
          var i :| 0 <= i < |front| && r == ActionOf(front[i]) && r.Some? &&
                   forall j :: i < j < |front| ==> ActionOf(front[j]).None?;
          assert forall j :: i < j < |evs| ==> ActionOf(evs[j]).None?;
        }
      }
    }
  }

  /** Events that record nothing (key releases, keys other than Delete) leave the
      pending action as it was. */
  lemma {:induction false} SilentEventsKeep(a: Option<Action>, evs: seq<Event>)
    requires forall i :: 0 <= i < |evs| ==> ActionOf(evs[i]).None?
    ensures PendingAfter(a, evs) == a
  {
    if evs != [] {
      var front := evs[..|evs| - 1];
      assert forall i :: 0 <= i < |front| ==> front[i] == evs[i];
      SilentEventsKeep(a, front);
    }
  }

  /** Pressing the Delete key replaces whatever was pending after any events, and the
      Delete stays pending through later events that record nothing. */
  lemma DeleteReplacesPending(a: Option<Action>, evs: seq<Event>, silent: seq<Event>)
    requires forall i :: 0 <= i < |silent| ==> ActionOf(silent[i]).None?
    ensures PendingAfter(a, evs + [KeyDown(DeleteKey, Down)] + silent) == Some(Delete)
  {
    PendingAfterConcat(a, evs + [KeyDown(DeleteKey, Down)], silent);
    PendingAfterConcat(a, evs, [KeyDown(DeleteKey, Down)]);
    assert [KeyDown(DeleteKey, Down)][..0] == [];
    SilentEventsKeep(Some(Delete), silent);
  }

  /** The margin the node menu is opened with. */
  const MENU_MARGIN: Thickness := Thickness(0.0, 20.0, 0.0, 0.0)

  class WorkspaceState {
    // The `action` cell and the `add_node` field.
    var action: Option<Action>
    var addNode: Option<NodeType>
    // The workspace's own `action_main` property and the node menu popup's `open` and
    // `margin` properties.
    var actionMain: Option<ActionMain>
    var menuOpen: bool
    var menuMargin: Thickness
    // The node container widget whose `action` and `add_node` properties it writes.
    const container: NodeContainerState

    /** `Workspace::create`: nothing pending, the menu closed, the container given. */
    constructor (c: NodeContainerState, margin: Thickness)
      ensures container == c && action.None? && addNode.None? && actionMain.None?
      ensures !menuOpen && menuMargin == margin
    {
      container := c;
      action, addNode, actionMain := None, None, None;
      menuOpen, menuMargin := false, margin;
    }

    /** `add_node`: a menu button records its node type, replacing any earlier request. */
    method AddNode(t: NodeType)
      modifies this`addNode
      ensures addNode == Some(t)
    {
      addNode := Some(t);
    }

    /** The template callbacks with `action`: an event that records an action
        overwrites the pending one; any other leaves it. */
    method HandleEvent(ev: Event)
      modifies this`action
      ensures action == PendingAfter(old(action), [ev])
    {
      assert [ev][..0] == [];
      var a := ActionOf(ev);
      if a.Some? {
        action := a;
      }
    }

    /** `handle_action_main`: the node-menu command opens the node menu below the
        pointer row; the command is always cleared. */
    method HandleActionMain()
      modifies this`actionMain, this`menuOpen, this`menuMargin
      ensures actionMain.None?
      ensures old(actionMain) == Some(MenuNode) ==> menuOpen && menuMargin == MENU_MARGIN
      ensures old(actionMain) != Some(MenuNode) ==> menuOpen == old(menuOpen) && menuMargin == old(menuMargin)
    {
      if actionMain == Some(MenuNode) {
        menuOpen := true;
        menuMargin := MENU_MARGIN;
      }
      actionMain := None;
    }

    /** `propagate_action`: a pending add-node request goes to the container first (it
        is cleared and the menu closes, and the pending action waits); otherwise the
        pending action, even none, goes to the container and is cleared. */
    method PropagateAction()
      modifies this`addNode, this`action, this`menuOpen, container`addNode, container`action
      ensures old(addNode).Some? ==>
                container.addNode == old(addNode) && addNode.None? && !menuOpen &&
                action == old(action) && container.action == old(container.action)
      ensures old(addNode).None? ==>
                container.action == old(action) && action.None? && addNode.None? &&
                container.addNode == old(container.addNode) && menuOpen == old(menuOpen)
    {
      if addNode.Some? {
        container.addNode := addNode;
        addNode := None;
        menuOpen := false;
      } else {
        container.action := action;
        action := None;
      }
    }

    /** `update`: the main-menu command first, then the hand-over to the container.
        Nothing is pending afterwards except an action held back by an add-node
        request. */
    method Update()
      modifies this`actionMain, this`menuOpen, this`menuMargin, this`addNode, this`action,
               container`addNode, container`action
      ensures actionMain.None? && addNode.None?
      ensures old(actionMain) == Some(MenuNode) ==> menuMargin == MENU_MARGIN
      ensures old(actionMain) != Some(MenuNode) ==> menuMargin == old(menuMargin)
      ensures old(addNode).Some? ==>
                container.addNode == old(addNode) && !menuOpen && action == old(action) &&
                container.action == old(container.action)
      ensures old(addNode).None? ==>
                container.action == old(action) && action.None? && container.addNode == old(container.addNode) &&
                menuOpen == (old(menuOpen) || old(actionMain) == Some(MenuNode))
    {
      HandleActionMain();
      PropagateAction();
    }
  }

  /** Two workspace ticks with both an add-node request and an action pending: the
      request reaches the container at the first, the action at the second, so neither
      is lost. */
  method TwoTicks(w: WorkspaceState, t: NodeType, a: Action)
    requires w.addNode == Some(t) && w.action == Some(a)
    modifies w, w.container
    ensures w.container.addNode == Some(t) && w.container.action == Some(a)
    ensures w.action.None? && w.addNode.None?
  {
    w.Update();
    w.Update();
  }
}
