/** The straight-line steps of `NodeContainerState` on values: each takes the scene (and
    the drag state) the controller holds, does what the source's method does, and
    returns the new values together with the fact that the child list stays in order.
    The controller class runs them and stores their results. */
module Steps {
  import opened Wrappers
  import opened Geometry
  import opened CoreGraph
  import opened Visual
  import opened Layout
  import opened ContainerSpec
  import opened Passes
  import opened Populate

  /** `grab_slot_edge` on slot widget `s`: the carried edges are picked up from an input
      slot that has some; otherwise a loose edge is drawn out of the slot. */
  method GrabSlotEdge(cs: seq<Child>, dragged: Option<DragDrop>, draggedEdges: seq<Entity>,
                      s: Entity, next: Entity, mouse: Point, sel: Option<DragDrop>)
    returns (st: Status, g: Grab)
    requires WellFormed(cs, next, sel) && NoDuplicates(draggedEdges)
    ensures var r := GrabSlot(cs, dragged, draggedEdges, s, next, mouse);
            (st.Done? <==> r.Some?) && (st.Done? ==> g == r.value)
    ensures st.Done? ==> WellFormed(g.children, g.next, sel) && NoDuplicates(g.edges)
  {
    g := Grab(cs, draggedEdges, Input, next);
    var k := SlotKeyOf(cs, s);
    if k.None? {
      return Abort(MissingWidget), g;
    }
    var key := k.value;
    var held := if key.side == Input then HeldEdges(cs, dragged, draggedEdges) else Some([]);
    if held.None? {
      return Abort(MissingWidget), g;
    }
    if held.value != [] {
      HeldNoDuplicates(cs, dragged, draggedEdges);
      var moved := RefreshDraggedEdges(cs, held.value, Input, mouse);
      WellFormedApply(cs, FreeEnd(Input, mouse), Handles(held.value), next, sel);
      return Done, Grab(moved, held.value, Input, next);
    }
    var c1, e;
    st, c1, e := CreateLooseEdge(cs, key, next, mouse);
    if st.Abort? {
      return;
    }
    WellFormedRun(cs, [NewLooseEdge(cs, key, next, mouse).value], next, sel);
    assert Handles([e]) == {e};
    var side := Opposite(key.side);
    var moved := RefreshDraggedEdges(c1, [e], side, mouse);
    WellFormedApply(c1, FreeEnd(side, mouse), {e}, next + 1, sel);
    g := Grab(moved, [e], side, next + 1);
  }

  /** `populate_node` for node `n` just added to the graph (`handle_add_node`): the new
      node widget is the most recent one and takes the next free handle. */
  method PopulateAddedNode(sc: Scene, n: CoreNode, sel: Option<DragDrop>) returns (r: Scene)
    requires WellFormed(sc.children, sc.next, sel)
    ensures PopulatedNode(sc.(graph := AddNode(sc.graph, n)), n.id) == Edited(r)
    ensures WellFormed(r.children, r.next, sel)
    ensures MostRecentOfKind(r.children, NodeWidget) == Some(sc.next)
  {
    var s1 := sc.(graph := AddNode(sc.graph, n));
    assert n in s1.graph.nodes;
    var found := NodeWithId(s1.graph.nodes, n.id).value;
    WellFormedPopulatedNode(s1, n.id, sel);
    PopulatedNodeMostRecent(s1, n.id, found);
    var st;
    st, r := PopulateNode(s1, n.id);
  }

  /** `remove_dragged_edges`: the carried edge widgets and their connections go. */
  method RemoveDraggedEdges(cs: seq<Child>, g0: Graph, dragged: Option<DragDrop>, draggedEdges: seq<Entity>)
    returns (st: Status, r: seq<Child>, g: Graph)
    requires Distinct(cs) && NoDuplicates(draggedEdges)
    ensures var held := HeldEdges(cs, dragged, draggedEdges);
            (st.Done? <==> held.Some? && AllEdges(cs, held.value)) &&
            (st.Abort? ==> st.fault == MissingWidget) &&
            (st.Done? ==> r == Without(cs, ByHandle(held.value)) && g == RemoveEdges(g0, Cores(cs, held.value)))
  {
    var held := HeldEdges(cs, dragged, draggedEdges);
    if held.None? {
      return Abort(MissingWidget), cs, g0;
    }
    HeldNoDuplicates(cs, dragged, draggedEdges);
    st, r, g := RemoveEdgeWidgets(cs, g0, held.value);
  }

  /** `update_node_to_graph` on widget `e`: its node's records take the widget's corner. */
  method UpdateNodeToGraph(locs: seq<Location>, cs: seq<Child>, e: Entity) returns (st: Status, r: seq<Location>)
    ensures var m := MovedRecords(locs, cs, e);
            (st.Done? <==> m.Some?) && (st.Done? ==> r == m.value) && (st.Abort? ==> st.fault == MissingWidget)
  {
    var c := Find(cs, e);
    if c.None? || c.value.Edge? {
      return Abort(MissingWidget), locs;
    }
    r := MoveRecords(locs, c.value.nodeId, ThicknessToPoint(c.value.margin));
    st := Done;
  }

  /** `update_dragged_node_to_graph`: only a dragged node writes its place back. */
  method UpdateDraggedNodeToGraph(locs: seq<Location>, cs: seq<Child>, dragged: Option<DragDrop>)
    returns (st: Status, r: seq<Location>)
    ensures var m := DroppedRecords(locs, cs, dragged);
            (st.Done? <==> m.Some?) && (st.Done? ==> r == m.value) && (st.Abort? ==> st.fault == MissingWidget)
  {
    if dragged.Some? && dragged.value.kind == NodeWidget {
      st, r := UpdateNodeToGraph(locs, cs, dragged.value.entity);
    } else {
      st, r := Done, locs;
    }
  }

  /** A drop on empty space: `remove_dragged_edges`, then `update_dragged_node_to_graph`. */
  method DropNowhereStep(sc: Scene, dragged: Option<DragDrop>, draggedEdges: seq<Entity>, sel: Option<DragDrop>)
    returns (st: Status, r: Scene)
    requires WellFormed(sc.children, sc.next, sel) && NoDuplicates(draggedEdges)
    ensures var o := DropNowhere(sc, dragged, draggedEdges);
            (st.Done? <==> o.Edited?) && (st.Done? ==> r == o.scene) && (st.Abort? ==> st.fault == o.fault)
    ensures st.Done? ==> WellFormed(r.children, r.next, sel)
  {
    r := sc;
    var cs, g;
    st, cs, g := RemoveDraggedEdges(sc.children, sc.graph, dragged, draggedEdges);
    if st.Abort? {
      return;
    }
    var held := HeldEdges(sc.children, dragged, draggedEdges).value;
    WellFormedWithout(sc.children, ByHandle(held), sc.next, sel);
    var locs;
    st, locs := UpdateDraggedNodeToGraph(sc.locations, cs, dragged);
    if st.Abort? {
      return;
    }
    r := Scene(cs, sc.next, g, locs);
  }

  /** The slot branch of `handle_dropped_entity`: the slot, its node widget and the
      carried edges are looked up, then the edges are dropped on the slot. */
  method DropOnSlot(sc: Scene, dragged: Option<DragDrop>, draggedEdges: seq<Entity>, s: Entity,
                    accepts: ConnectRule, sel: Option<DragDrop>)
    returns (st: Status, r: Scene)
    requires WellFormed(sc.children, sc.next, sel) && NoDuplicates(draggedEdges)
    ensures var o := SlotDrop(sc, dragged, draggedEdges, s, accepts);
            (st.Done? <==> o.Edited?) && (st.Done? ==> r == o.scene) && (st.Abort? ==> st.fault == o.fault)
    ensures st.Done? ==> WellFormed(r.children, r.next, sel)
  {
    r := sc;
    var k := SlotKeyOf(sc.children, s);
    if k.None? {
      return Abort(MissingWidget), r;
    }
    var key := k.value;
    var n := NodeWidgetOf(sc.children, key.nodeId);
    if n.None? {
      return Abort(MissingNode), r;
    }
    var held := HeldEdges(sc.children, dragged, draggedEdges);
    if held.None? {
      return Abort(MissingWidget), r;
    }
    HeldNoDuplicates(sc.children, dragged, draggedEdges);
    var goal := PositionEdge(key.side, key.slotId, ThicknessToPoint(n.value.margin));
    st, r := RebindToSlot(sc, held.value, s, key, goal, accepts);
    if st.Done? {
      SlotDropRebound(sc, dragged, draggedEdges, s, accepts, key, n.value, held.value);
      WellFormedRebound(sc, held.value, key, goal, accepts, sel);
    }
  }

  /** The edges `held` dropped on slot widget `s`, whose key is `key` and whose place on
      its node is `goal`: each is rebound and connected, then the slot's edge widgets are
      rebuilt from the graph. */
  method RebindToSlot(sc: Scene, held: seq<Entity>, s: Entity, key: SlotKey, goal: Point,
                      accepts: ConnectRule)
    returns (st: Status, r: Scene)
    requires Distinct(sc.children) && HandlesBelow(sc.children, sc.next) && NoDuplicates(held)
    requires SlotKeyOf(sc.children, s) == Some(key)
    ensures !AllEdges(sc.children, held) ==> st == Abort(MissingWidget)
    ensures AllEdges(sc.children, held) ==>
              var o := Rebound(sc, held, key, goal, accepts);
              (st.Done? <==> o.Edited?) && (st.Done? ==> r == o.scene) && (st.Abort? ==> st.fault == o.fault)
  {
    r := sc;
    var cs, g;
    st, cs, g := JoinEach(sc.children, sc.graph, held, key, goal, accepts);
    if st.Abort? {
      return;
    }
    RebindKeepsSlot(sc.children, key, goal, held, s);
    ApplyKeepsHandles(sc.children, Rebind(key, goal), Handles(held), sc.next);
    var next;
    st, cs, next := UpdateSlotEdgesFromGraph(cs, sc.next, s, g, sc.locations);
    if st.Done? {
      r := Scene(cs, next, g, sc.locations);
    }
  }

  /** Rebinding edges to a slot leaves every slot widget's key as it was. */
  lemma RebindKeepsSlot(cs: seq<Child>, key: SlotKey, goal: Point, held: seq<Entity>, s: Entity)
    ensures SlotKeyOf(ApplyTo(cs, Rebind(key, goal), Handles(held)), s) == SlotKeyOf(cs, s)
  {
    FindApplyTo(cs, Rebind(key, goal), Handles(held), s);
  }

  /** Once the slot, its node widget and the carried edges are found, a drop on the slot
      is the rebinding of those edges to the slot's place on the node. */
  lemma SlotDropRebound(sc: Scene, dragged: Option<DragDrop>, draggedEdges: seq<Entity>, s: Entity,
                        accepts: ConnectRule, key: SlotKey, n: Child, held: seq<Entity>)
    requires SlotKeyOf(sc.children, s) == Some(key) && NodeWidgetOf(sc.children, key.nodeId) == Some(n)
    requires HeldEdges(sc.children, dragged, draggedEdges) == Some(held) && AllEdges(sc.children, held)
    ensures SlotDrop(sc, dragged, draggedEdges, s, accepts)
         == Rebound(sc, held, key, PositionEdge(key.side, key.slotId, ThicknessToPoint(n.margin)), accepts)
  {
  }

  /** `handle_dropped_entity` after the drag is reset: on nothing, on a slot, or (where
      the source panics) on a node or an edge. */
  method Dropped(sc: Scene, dragged: Option<DragDrop>, draggedEdges: seq<Entity>, droppedOn: Option<DragDrop>,
                 accepts: ConnectRule, sel: Option<DragDrop>)
    returns (st: Status, r: Scene)
    requires WellFormed(sc.children, sc.next, sel) && NoDuplicates(draggedEdges)
    ensures var o := Drop(sc, dragged, draggedEdges, droppedOn, accepts);
            (st.Done? <==> o.Edited?) && (st.Done? ==> r == o.scene) && (st.Abort? ==> st.fault == o.fault)
    ensures st.Done? ==> WellFormed(r.children, r.next, sel)
  {
    if droppedOn.None? {
      st, r := DropNowhereStep(sc, dragged, draggedEdges, sel);
      return;
    }
    r := sc;
    match droppedOn.value.kind
    case SlotWidget =>
      st, r := DropOnSlot(sc, dragged, draggedEdges, droppedOn.value.entity, accepts, sel);
    case NodeWidget =>
      st := Abort(DroppedOnNode);
    case EdgeWidget =>
      st := Abort(DroppedOnEdge);
  }
}
