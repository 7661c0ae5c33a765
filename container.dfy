/** `NodeContainerState` of src/node_container.rs: the controller behind the node-graph
    editor. Each GUI tick it reads the pending pointer action, adds a node the menu asked
    for, moves what is being dragged, commits or cancels a drop, updates the selection,
    and runs a main-menu command; it keeps the library graph, the node locations and the
    container's child widgets in step. The loops it runs are the methods of `Passes`,
    `Populate` and `Steps`; each method here runs them on its fields and stores the
    results. */
module Container {
  import opened Wrappers
  import opened Geometry
  import opened CoreGraph
  import opened Visual
  import opened Layout
  import opened ContainerSpec
  import opened Passes
  import opened Populate
  import opened Steps

  class NodeContainerState {
    // The container's child widgets with the next free widget handle (the GUI context),
    // and `node_graph_spatial`: the library graph and the node locations.
    var scene: Scene
    // `dragged_edges`: the edges a drag carries and the side of their free ends.
    var draggedEdges: seq<Entity>
    var draggedSide: Side
    var mousePosition: Point
    var dragOffset: Point
    var dragging: bool
    var draggedEntity: Option<DragDrop>
    var droppedOnEntity: Option<DragDrop>
    var selectedEntity: Option<DragDrop>
    // The widget properties the workspace writes: `action`, `add_node`, `action_main`.
    var action: Option<Action>
    var addNode: Option<NodeType>
    var actionMain: Option<ActionMain>

    /** Handles are unique and below the next free one, only the recorded selection is
        highlighted, and the dragged edges are listed once each. */
    ghost predicate Valid()
      reads this`scene, this`selectedEntity, this`draggedEdges
    {
      WellFormed(scene.children, scene.next, selectedEntity) && NoDuplicates(draggedEdges)
    }

    /** `NodeContainer::create` with `init`: an empty editor, the grab offset at its
        default. The menu child `init` appends is not modelled. */
    constructor ()
      ensures Valid()
      ensures scene == Scene([], 1, Graph([], []), [])
      ensures draggedEdges == [] && !dragging && dragOffset == DRAG_OFFSET_DEFAULT
      ensures draggedEntity.None? && droppedOnEntity.None? && selectedEntity.None?
      ensures action.None? && addNode.None? && actionMain.None?
    {
      scene := Scene([], 1, Graph([], []), []);
      draggedEdges, draggedSide := [], Input;
      mousePosition, dragOffset, dragging := ORIGIN, DRAG_OFFSET_DEFAULT, false;
      draggedEntity, droppedOnEntity, selectedEntity := None, None, None;
      action, addNode, actionMain := None, None, None;
    }

    /** `handle_action` for a press: a left press on a node or slot widget starts a drag
        of the topmost one under the pointer and records the grab offset; the pointer
        position is recorded for every press. */
    method Press(m: Mouse, hit: HitTest)
      requires Valid()
      modifies this`draggedEntity, this`dragOffset, this`mousePosition
      ensures var pressed := PressedOn(scene.children, hit, m.position);
              if m.button == Left && pressed.Some? then draggedEntity == Some(pressed.value.0) && dragOffset == pressed.value.1
              else draggedEntity == old(draggedEntity) && dragOffset == old(dragOffset)
      ensures mousePosition == m.position
    {
      var clicked := GetClickedChild(scene.children, hit, m.position);
      if m.button == Left && clicked.Some? {
        TopmostFound(scene.children, hit, m.position);
        var c := Find(scene.children, clicked.value).value;
        draggedEntity := Some(DragDrop(c.Kind(), clicked.value));
        dragOffset := Minus(m.position, ThicknessToPoint(c.margin));
      }
      mousePosition := m.position;
    }

    /** `handle_action` for a release: the last slot widget under the pointer becomes the
        drop target (an earlier target stays when there is none), and the pointer
        position is recorded. */
    method Release(m: Mouse, hit: HitTest)
      modifies this`droppedOnEntity, this`mousePosition
      ensures var t := LastHit(Select(scene.children, OfKind(SlotWidget)), hit, m.position);
              droppedOnEntity == if t.Some? then Some(DragDrop(SlotWidget, t.value)) else old(droppedOnEntity)
      ensures mousePosition == m.position
    {
      var t := DropTarget(scene.children, hit, m.position);
      if t.Some? {
        droppedOnEntity := Some(DragDrop(SlotWidget, t.value));
      }
      mousePosition := m.position;
    }

    /** `delete_node` on widget `e`: a node widget goes with its slots and their edges,
        and its node leaves the graph; anything else is left alone. The locations and the
        next free handle are not touched. */
    method DeleteNode(e: Entity)
      requires Valid()
      modifies this`scene
      ensures NodeAt(old(scene.children), e).None? ==> scene == old(scene)
      ensures NodeAt(old(scene.children), e).Some? ==>
                scene == old(scene).(children := DeleteNodeChildren(old(scene.children), e),
                                     graph := RemoveNode(old(scene.graph), NodeAt(old(scene.children), e).value.nodeId))
      ensures Distinct(scene.children) && HandlesBelow(scene.children, scene.next)
      ensures Highlighted(old(scene.children), selectedEntity) ==> Highlighted(scene.children, selectedEntity)
    {
      var cs, g := Passes.DeleteNode(scene.children, scene.graph, e);
      var w := NodeAt(scene.children, e);
      if w.Some? {
        var q := AnyOf(SlotRemovals(Keep(scene.children, SlotOfNode(w.value.nodeId))) + [HasEntity(e)]);
        DistinctWithout(scene.children, q);
        HighlightedWithout(scene.children, q, selectedEntity);
      }
      scene := scene.(children := cs, graph := g);
    }

    /** `handle_action` for Delete: with a selection, the selected node is deleted and
        the selection cleared; otherwise nothing happens. */
    method DeleteSelected()
      requires Valid()
      modifies this`scene, this`selectedEntity
      ensures Valid()
      ensures selectedEntity.None?
      ensures old(selectedEntity).None? ==> scene == old(scene)
      ensures old(selectedEntity).Some? ==>
                var e := old(selectedEntity).value.entity;
                (NodeAt(old(scene.children), e).None? ==> scene == old(scene)) &&
                (NodeAt(old(scene.children), e).Some? ==>
                   scene == old(scene).(children := DeleteNodeChildren(old(scene.children), e),
                                        graph := RemoveNode(old(scene.graph), NodeAt(old(scene.children), e).value.nodeId)))
    {
      if selectedEntity.None? {
        return;
      }
      var sel := selectedEntity.value;
      DeleteClearsHighlight(scene.children, sel);
      DeleteNode(sel.entity);
      selectedEntity := None;
    }

    /** `handle_action`: the pending action, if any, is a press, a release, a pointer
        move or a delete. A right press on a node widget whose node is missing, or is
        neither a Mix nor an Image node, stops the program; otherwise the property menu
        it opens or closes is not modelled. */
    method HandleAction(hit: HitTest) returns (st: Status)
      requires Valid()
      modifies this`scene, this`draggedEntity, this`dragOffset, this`mousePosition,
               this`droppedOnEntity, this`selectedEntity
      ensures Valid()
      ensures st.Abort? <==>
                action.Some? && action.value.Press? && action.value.mouse.button == Right &&
                RightPressFault(old(scene.children), old(scene.graph), hit, action.value.mouse.position).Some?
      ensures st.Abort? ==>
                st.fault == RightPressFault(old(scene.children), old(scene.graph), hit, action.value.mouse.position).value &&
                unchanged(this)
      ensures action.None? ==> st.Done? && unchanged(this)
      ensures st.Done? && action.Some? && action.value.Press? ==>
                var m := action.value.mouse;
                var pressed := PressedOn(scene.children, hit, m.position);
                scene == old(scene) && mousePosition == m.position &&
                (if m.button == Left && pressed.Some? then draggedEntity == Some(pressed.value.0) && dragOffset == pressed.value.1
                 else draggedEntity == old(draggedEntity) && dragOffset == old(dragOffset)) &&
                droppedOnEntity == old(droppedOnEntity) && selectedEntity == old(selectedEntity)
      ensures action.Some? && action.value.Release? ==>
                var m := action.value.mouse;
                var t := LastHit(Select(scene.children, OfKind(SlotWidget)), hit, m.position);
                scene == old(scene) && mousePosition == m.position &&
                droppedOnEntity == (if t.Some? then Some(DragDrop(SlotWidget, t.value)) else old(droppedOnEntity)) &&
                draggedEntity == old(draggedEntity) && dragOffset == old(dragOffset) && selectedEntity == old(selectedEntity)
      ensures action.Some? && action.value.Move? ==>
                scene == old(scene) && mousePosition == action.value.point &&
                draggedEntity == old(draggedEntity) && dragOffset == old(dragOffset) &&
                droppedOnEntity == old(droppedOnEntity) && selectedEntity == old(selectedEntity)
      ensures action == Some(Delete) ==>
                selectedEntity.None? && draggedEntity == old(draggedEntity) && dragOffset == old(dragOffset) &&
                mousePosition == old(mousePosition) && droppedOnEntity == old(droppedOnEntity) &&
                (old(selectedEntity).None? ==> scene == old(scene)) &&
                (old(selectedEntity).Some? && NodeAt(old(scene.children), old(selectedEntity).value.entity).None? ==>
                   scene == old(scene)) &&
                (old(selectedEntity).Some? && NodeAt(old(scene.children), old(selectedEntity).value.entity).Some? ==>
                   var e := old(selectedEntity).value.entity;
                   scene == old(scene).(children := DeleteNodeChildren(old(scene.children), e),
                                        graph := RemoveNode(old(scene.graph), NodeAt(old(scene.children), e).value.nodeId)))
    {
      st := Done;
      if action.None? {
        return;
      }
      match action.value
      case Press(m) =>
        if m.button == Right {
          var f := RightPressFault(scene.children, scene.graph, hit, m.position);
          if f.Some? {
            return Abort(f.value);
          }
        }
        Press(m, hit);
      case Release(m) => Release(m, hit);
      case Move(p) => mousePosition := p;
      case Delete => DeleteSelected();
    }

    /** `handle_add_node`: a requested node is built and added to the graph, populated
        with its widget and slots, and its widget becomes the dragged entity; the request
        is cleared either way. */
    method HandleAddNode(build: NodeBuilder)
      requires Valid()
      modifies this`scene, this`draggedEntity, this`addNode
      ensures Valid()
      ensures addNode.None?
      ensures old(addNode).None? ==> scene == old(scene) && draggedEntity == old(draggedEntity)
      ensures old(addNode).Some? ==>
                var n := build(old(scene.graph), old(addNode).value);
                PopulatedNode(old(scene).(graph := AddNode(old(scene.graph), n)), n.id) == Edited(scene) &&
                draggedEntity == Some(DragDrop(NodeWidget, old(scene.next)))
    {
      if addNode.Some? {
        var n := build(scene.graph, addNode.value);
        var r := PopulateAddedNode(scene, n, selectedEntity);
        var recent := MostRecentOfKind(r.children, NodeWidget);
        scene := r;
        draggedEntity := Some(DragDrop(NodeWidget, recent.value));
      }
      addNode := None;
    }

    /** `grab_slot_edge` on slot widget `s`: from an output slot, or an input slot with
        nothing attached, a loose edge is drawn out of the slot; from an input slot with
        edges, those edges are picked up. The drag becomes an edge drag (on the
        placeholder handle 0) and the free ends follow the pointer. */
    method GrabSlotEdge(s: Entity) returns (st: Status)
      requires Valid()
      modifies this`scene, this`draggedEntity, this`draggedEdges, this`draggedSide
      ensures Valid()
      ensures var g := GrabSlot(old(scene.children), old(draggedEntity), old(draggedEdges), s, old(scene.next), mousePosition);
              (st.Done? <==> g.Some?) &&
              (st.Done? ==> scene == old(scene).(children := g.value.children, next := g.value.next)
                            && draggedEdges == g.value.edges && draggedSide == g.value.freeSide
                            && draggedEntity == Some(DragDrop(EdgeWidget, 0))) &&
              (st.Abort? ==> unchanged(this))
    {
      var g;
      st, g := Steps.GrabSlotEdge(scene.children, draggedEntity, draggedEdges, s, scene.next, mousePosition, selectedEntity);
      if st.Done? {
        scene := scene.(children := g.children, next := g.next);
        draggedEdges, draggedSide := g.edges, g.freeSide;
        draggedEntity := Some(DragDrop(EdgeWidget, 0));
      }
    }

    /** `handle_dragged_entity`: once the pointer is further than DRAG_THRESHOLD from the
        grab point the drag is on and the dragged widget is disabled; while the drag is
        on, a node follows the pointer with its edges and slots, a slot is grabbed, and
        dragged edges follow the pointer. `outside` is the margin the GUI reports for the
        placeholder handle 0. A dragged handle whose widget is gone (deleted while the
        button was held) makes the margin read fail: the tick stops, nothing changed. */
    method HandleDraggedEntity(outside: Thickness) returns (st: Status)
      requires Valid()
      modifies this`scene, this`draggedEntity, this`draggedEdges, this`draggedSide, this`dragging
      ensures Valid()
      ensures old(draggedEntity).None? ==> st.Done? && unchanged(this)
      ensures old(draggedEntity).Some? && DraggedWidgetGone(old(scene.children), old(draggedEntity).value.entity) ==>
                st == Abort(MissingWidget) && unchanged(this)
      ensures old(draggedEntity).Some? && !DraggedWidgetGone(old(scene.children), old(draggedEntity).value.entity) ==>
                var d := old(draggedEntity).value;
                var crossed := PastThreshold(old(scene.children), d.entity, outside, mousePosition, dragOffset);
                var c1 := if crossed then ApplyTo(old(scene.children), SetEnabled(false), {d.entity}) else old(scene.children);
                dragging == (old(dragging) || crossed) &&
                (!dragging ==> st.Done? && unchanged(this)) &&
                (dragging && d.kind == NodeWidget ==>
                   st.Done? && scene == old(scene).(children := MoveNode(c1, d.entity, mousePosition, dragOffset)) &&
                   draggedEntity == old(draggedEntity) && draggedEdges == old(draggedEdges) &&
                   draggedSide == old(draggedSide)) &&
                (dragging && d.kind == EdgeWidget ==>
                   st.Done? && scene == old(scene).(children := ApplyTo(c1, FreeEnd(old(draggedSide), mousePosition), Handles(draggedEdges))) &&
                   draggedEntity == old(draggedEntity) && draggedEdges == old(draggedEdges) &&
                   draggedSide == old(draggedSide)) &&
                (dragging && d.kind == SlotWidget ==>
                   var g := GrabSlot(c1, old(draggedEntity), old(draggedEdges), d.entity, old(scene.next), mousePosition);
                   (st.Done? <==> g.Some?) &&
                   (st.Done? ==> scene == old(scene).(children := g.value.children, next := g.value.next)
                                 && draggedEdges == g.value.edges && draggedSide == g.value.freeSide
                                 && draggedEntity == Some(DragDrop(EdgeWidget, 0))))
    {
      if draggedEntity.None? {
        return Done;
      }
      st := BeginDrag(outside);
      if st.Abort? || !dragging {
        return;
      }
      st := FollowDrag();
    }

    /** The first half of `handle_dragged_entity`: past the threshold the drag is on and
        the dragged widget is disabled. The margin read fails on a widget that is gone. */
    method BeginDrag(outside: Thickness) returns (st: Status)
      requires Valid() && draggedEntity.Some?
      modifies this`scene, this`dragging
      ensures Valid()
      ensures st.Abort? <==> DraggedWidgetGone(old(scene.children), draggedEntity.value.entity)
      ensures st.Abort? ==> st.fault == MissingWidget && unchanged(this)
      ensures st.Done? ==>
              var e := draggedEntity.value.entity;
              var crossed := PastThreshold(old(scene.children), e, outside, mousePosition, dragOffset);
              dragging == (old(dragging) || crossed) &&
              scene == if crossed then old(scene).(children := ApplyTo(old(scene.children), SetEnabled(false), {e}))
                       else old(scene)
    {
      var e := draggedEntity.value.entity;
      if DraggedWidgetGone(scene.children, e) {
        return Abort(MissingWidget);
      }
      st := Done;
      if PastThreshold(scene.children, e, outside, mousePosition, dragOffset) {
        WellFormedApply(scene.children, SetEnabled(false), {e}, scene.next, selectedEntity);
        scene := scene.(children := ApplyTo(scene.children, SetEnabled(false), {e}));
        dragging := true;
      }
    }

    /** The second half of `handle_dragged_entity`, while the drag is on: a node follows
        the pointer with its edges and slots, a slot is grabbed, and dragged edges follow
        the pointer. */
    method FollowDrag() returns (st: Status)
      requires Valid() && draggedEntity.Some?
      modifies this`scene, this`draggedEntity, this`draggedEdges, this`draggedSide
      ensures Valid()
      ensures var d := old(draggedEntity).value;
              (d.kind == NodeWidget ==>
                 st.Done? && scene == old(scene).(children := MoveNode(old(scene.children), d.entity, mousePosition, dragOffset)) &&
                 draggedEntity == old(draggedEntity) && draggedEdges == old(draggedEdges) &&
                 draggedSide == old(draggedSide)) &&
              (d.kind == EdgeWidget ==>
                 st.Done? && scene == old(scene).(children := ApplyTo(old(scene.children), FreeEnd(old(draggedSide), mousePosition), Handles(draggedEdges))) &&
                 draggedEntity == old(draggedEntity) && draggedEdges == old(draggedEdges) &&
                 draggedSide == old(draggedSide)) &&
              (d.kind == SlotWidget ==>
                 var g := GrabSlot(old(scene.children), old(draggedEntity), old(draggedEdges), d.entity, old(scene.next), mousePosition);
                 (st.Done? <==> g.Some?) &&
                 (st.Done? ==> scene == old(scene).(children := g.value.children, next := g.value.next)
                               && draggedEdges == g.value.edges && draggedSide == g.value.freeSide
                               && draggedEntity == Some(DragDrop(EdgeWidget, 0))))
    {
      var d := draggedEntity.value;
      match d.kind
      case NodeWidget =>
        var moved := RefreshNode(scene.children, d.entity, mousePosition, dragOffset);
        MoveNodeKeepsHandles(scene.children, d.entity, mousePosition, dragOffset, scene.next, selectedEntity);
        scene := scene.(children := moved);
        st := Done;
      case SlotWidget =>
        st := GrabSlotEdge(d.entity);
      case EdgeWidget =>
        var moved := RefreshDraggedEdges(scene.children, draggedEdges, draggedSide, mousePosition);
        WellFormedApply(scene.children, FreeEnd(draggedSide, mousePosition), Handles(draggedEdges), scene.next, selectedEntity);
        scene := scene.(children := moved);
        st := Done;
    }

    /** `reset_dragging`: the drag is off, the dragged widget is enabled again, and the
        grab offset is back at its default. */
    method ResetDragging()
      requires Valid()
      modifies this`scene, this`dragging, this`dragOffset
      ensures Valid()
      ensures scene == old(scene).(children := WithEnabled(old(scene.children), draggedEntity, true))
      ensures !dragging && dragOffset == DRAG_OFFSET_DEFAULT
    {
      if draggedEntity.Some? {
        WellFormedApply(scene.children, SetEnabled(true), {draggedEntity.value.entity}, scene.next, selectedEntity);
        scene := scene.(children := ApplyTo(scene.children, SetEnabled(true), {draggedEntity.value.entity}));
      }
      dragging := false;
      dragOffset := DRAG_OFFSET_DEFAULT;
    }

    /** `handle_dropped_entity`: only on a release, and after `reset_dragging`. With no
        drop target the carried edges are removed (and the drag carries none any more)
        and a dragged node writes back its place; on a slot the carried edges are
        connected to it; the drop target is then cleared. A node or edge target is where
        the source panics. */
    method HandleDroppedEntity(accepts: ConnectRule) returns (st: Status)
      requires Valid()
      modifies this`scene, this`draggedEdges, this`dragging, this`dragOffset, this`droppedOnEntity
      ensures Valid()
      ensures !(action.Some? && action.value.Release?) ==> st.Done? && unchanged(this)
      ensures action.Some? && action.value.Release? ==>
                var sc := old(scene).(children := WithEnabled(old(scene.children), draggedEntity, true));
                var o := Drop(sc, draggedEntity, old(draggedEdges), old(droppedOnEntity), accepts);
                !dragging && dragOffset == DRAG_OFFSET_DEFAULT &&
                (st.Done? <==> o.Edited?) && (st.Abort? ==> st.fault == o.fault) &&
                (st.Done? ==> scene == o.scene && droppedOnEntity.None? &&
                              draggedEdges == if old(droppedOnEntity).None? then [] else old(draggedEdges))
    {
      if !(action.Some? && action.value.Release?) {
        return Done;
      }
      ResetDragging();
      var r;
      st, r := Dropped(scene, draggedEntity, draggedEdges, droppedOnEntity, accepts, selectedEntity);
      if st.Abort? {
        return;
      }
      scene := r;
      if droppedOnEntity.None? {
        draggedEdges := [];
      }
      droppedOnEntity := None;
    }

    /** `select_entity`: the previous selection is un-highlighted; a node becomes the new
        highlighted selection, anything else clears it. */
    method SelectEntity(next: Option<DragDrop>)
      requires Valid()
      modifies this`scene, this`selectedEntity
      ensures Valid()
      ensures scene == old(scene).(children := Reselected(old(scene.children), old(selectedEntity), next))
      ensures selectedEntity == NewSelection(next)
    {
      var cleared := scene.children;
      if selectedEntity.Some? {
        ApplyKeepsHandles(cleared, SetSelected(false), {selectedEntity.value.entity}, scene.next);
        cleared := ApplyTo(cleared, SetSelected(false), {selectedEntity.value.entity});
      }
      var cs := cleared;
      if next.Some? && next.value.kind == NodeWidget {
        ApplyKeepsHandles(cleared, SetSelected(true), {next.value.entity}, scene.next);
        cs := ApplyTo(cleared, SetSelected(true), {next.value.entity});
      }
      ReselectedHighlight(scene.children, selectedEntity, next);
      scene := scene.(children := cs);
      selectedEntity := NewSelection(next);
    }

    /** `reset_mouse_action`: on a release the dragged entity becomes the selection and
        the drag is forgotten; the pending action is always cleared. */
    method ResetMouseAction()
      requires Valid()
      modifies this`scene, this`selectedEntity, this`draggedEntity, this`action
      ensures Valid()
      ensures action.None?
      ensures old(action).Some? && old(action).value.Release? ==>
                scene == old(scene).(children := Reselected(old(scene.children), old(selectedEntity), old(draggedEntity))) &&
                selectedEntity == NewSelection(old(draggedEntity)) && draggedEntity.None?
      ensures !(old(action).Some? && old(action).value.Release?) ==>
                scene == old(scene) && selectedEntity == old(selectedEntity) && draggedEntity == old(draggedEntity)
    {
      if action.Some? && action.value.Release? {
        SelectEntity(draggedEntity);
        draggedEntity := None;
      }
      action := None;
    }

    /** `load_graph`: the spatial state read from `path` replaces the graph and the
        locations, the dragged edges are dropped, and every widget is rebuilt: nodes with
        their slots, then edges (`Populate.Repopulated`). */
    method LoadGraph(read: FileReader, path: string) returns (st: Status)
      requires Valid()
      modifies this`scene, this`draggedEdges
      ensures Valid()
      ensures read(path).None? ==> st == Abort(UnreadableFile) && unchanged(this)
      ensures read(path).Some? ==>
                var sp := read(path).value;
                var o := Repopulated(sp.graph, sp.locations, old(scene.next));
                (st.Done? <==> o.Edited?) && (st.Abort? ==> st.fault == o.fault) &&
                (st.Done? ==> scene == o.scene && draggedEdges == [])
    {
      var sp := read(path);
      if sp.None? {
        return Abort(UnreadableFile);
      }
      var r;
      st, r := PopulateWorkspace(sp.value.graph, sp.value.locations, scene.next);
      if st.Abort? {
        return;
      }
      scene := r;
      draggedEdges := [];
    }

    /** `handle_action_main`: a pending load runs; a save (file output) and the node-menu
        command change nothing here; the command is cleared. */
    method HandleActionMain(read: FileReader) returns (st: Status)
      requires Valid()
      modifies this`scene, this`draggedEdges, this`actionMain
      ensures Valid()
      ensures actionMain.None?
      ensures !(old(actionMain).Some? && old(actionMain).value.LoadGraph?) ==>
                st.Done? && scene == old(scene) && draggedEdges == old(draggedEdges)
      ensures old(actionMain).Some? && old(actionMain).value.LoadGraph? ==>
                var sp := read(old(actionMain).value.path);
                (sp.None? ==> st == Abort(UnreadableFile)) &&
                (sp.Some? ==>
                   var o := Repopulated(sp.value.graph, sp.value.locations, old(scene.next));
                   (st.Done? <==> o.Edited?) && (st.Done? ==> scene == o.scene && draggedEdges == []))
    {
      st := Done;
      if actionMain.Some? && actionMain.value.LoadGraph? {
        st := LoadGraph(read, actionMain.value.path);
      }
      actionMain := None;
    }

    /** `update`: one GUI tick, in the source's order: the pending action, the add-node
        request, the drag, the drop, the end of the pointer action, the main-menu
        command. A step where the source panics ends the tick. */
    method Update(hit: HitTest, outside: Thickness, build: NodeBuilder, accepts: ConnectRule, read: FileReader)
      returns (st: Status)
      requires Valid()
      modifies this
      ensures Valid()
      ensures st.Done? ==> action.None? && addNode.None? && actionMain.None?
      ensures st.Done? && old(action).Some? && old(action).value.Release? ==> draggedEntity.None? && !dragging
      ensures old(action).Some? && old(action).value.Press? && old(action).value.mouse.button == Right &&
              RightPressFault(old(scene.children), old(scene.graph), hit, old(action).value.mouse.position).Some? ==>
                st.Abort? && unchanged(this)
      ensures old(action).None? && old(addNode).None? && old(actionMain).None? && old(draggedEntity).None? ==>
                st.Done? && scene == old(scene) && draggedEdges == old(draggedEdges) &&
                selectedEntity == old(selectedEntity) && draggedEntity.None?
    {
      ghost var release := action.Some? && action.value.Release?;
      st := BeginTick(hit, outside, build);
      if st.Abort? {
        return;
      }
      st := EndTick(accepts);
      if st.Abort? {
        return;
      }
      assert release ==> draggedEntity.None? && !dragging;
      st := HandleActionMain(read);
    }

    /** The start of `update`: the pending action, the add-node request and the drag.
        A right press the property menu cannot take ends the tick with nothing changed. */
    method BeginTick(hit: HitTest, outside: Thickness, build: NodeBuilder) returns (st: Status)
      requires Valid()
      modifies this`scene, this`draggedEntity, this`dragOffset, this`mousePosition, this`droppedOnEntity,
               this`selectedEntity, this`addNode, this`draggedEdges, this`draggedSide, this`dragging
      ensures Valid()
      ensures st.Done? ==> addNode.None?
      ensures action.Some? && action.value.Press? && action.value.mouse.button == Right &&
              RightPressFault(old(scene.children), old(scene.graph), hit, action.value.mouse.position).Some? ==>
                st.Abort? && unchanged(this)
      ensures action.None? && old(addNode).None? && old(draggedEntity).None? ==> st.Done? && unchanged(this)
    {
      st := HandleAction(hit);
      if st.Abort? {
        return;
      }
      HandleAddNode(build);
      st := HandleDraggedEntity(outside);
    }

    /** The end of `update` before the main-menu command: the drop and the end of the
        pointer action. */
    method EndTick(accepts: ConnectRule) returns (st: Status)
      requires Valid()
      modifies this`scene, this`draggedEdges, this`dragging, this`dragOffset, this`droppedOnEntity,
               this`selectedEntity, this`draggedEntity, this`action
      ensures Valid()
      ensures st.Done? ==> action.None?
      ensures st.Done? && old(action).Some? && old(action).value.Release? ==> draggedEntity.None? && !dragging
      ensures !(old(action).Some? && old(action).value.Release?) ==>
                st.Done? && scene == old(scene) && draggedEdges == old(draggedEdges) &&
                selectedEntity == old(selectedEntity) && draggedEntity == old(draggedEntity) &&
                dragging == old(dragging) && dragOffset == old(dragOffset) && droppedOnEntity == old(droppedOnEntity)
      ensures old(action).Some? && old(action).value.Release? ==>
                var sc := old(scene).(children := WithEnabled(old(scene.children), old(draggedEntity), true));
                var o := Drop(sc, old(draggedEntity), old(draggedEdges), old(droppedOnEntity), accepts);
                (st.Done? <==> o.Edited?) && (st.Abort? ==> st.fault == o.fault) &&
                (st.Done? ==>
                   scene == o.scene.(children := Reselected(o.scene.children, old(selectedEntity), old(draggedEntity))) &&
                   selectedEntity == NewSelection(old(draggedEntity)) && draggedEntity.None? &&
                   droppedOnEntity.None? && !dragging && dragOffset == DRAG_OFFSET_DEFAULT &&
                   draggedEdges == if old(droppedOnEntity).None? then [] else old(draggedEdges))
    {
      ghost var release := action.Some? && action.value.Release?;
      ghost var sc := scene.(children := WithEnabled(scene.children, draggedEntity, true));
      ghost var o := Drop(sc, draggedEntity, draggedEdges, droppedOnEntity, accepts);
      ghost var sel0, dragged0 := selectedEntity, draggedEntity;
      st := HandleDroppedEntity(accepts);
      if st.Abort? {
        return;
      }
      ghost var s1 := scene;
      assert release ==> s1 == o.scene;
      ResetMouseAction();
    }
  }
}
