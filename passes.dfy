/** The loops of src/node_container.rs that walk a list of widget handles, location
    records or graph edges one element at a time, written over the values they change,
    and the static helpers of the controller that only work on the child list
    (`delete_edges_in_slot`, `delete_slot`, `disconnect_node`). The controller's methods
    run the loops on its own fields and store the results. */
module Passes {
  import opened Wrappers
  import opened Geometry
  import opened CoreGraph
  import opened Visual
  import opened Layout
  import opened ContainerSpec

  /** One property update per listed handle, in order: the loops of
      `refresh_dragged_edges` (each step a `move_edge_side`), `refresh_node_edges` and
      `refresh_node_slots`. */
  method ApplyEach(c0: seq<Child>, u: Update, es: seq<Entity>) returns (cs: seq<Child>)
    ensures cs == ApplyTo(c0, u, Handles(es))
  {
    cs := c0;
    assert Handles(es[..0]) == {};
    for i := 0 to |es|
      invariant cs == ApplyTo(c0, u, Handles(es[..i]))
    {
      ApplyToStep(c0, u, Handles(es[..i]), es[i]);
      HandlesStep(es, i);
      cs := ApplyTo(cs, u, {es[i]});
    }
    assert es[..|es|] == es;
  }

  /** `refresh_dragged_edges`: the `side` end of every dragged edge is moved to the
      pointer, one `move_edge_side` per dragged handle. */
  method RefreshDraggedEdges(c0: seq<Child>, edges: seq<Entity>, side: Side, mouse: Point) returns (cs: seq<Child>)
    ensures cs == ApplyTo(c0, FreeEnd(side, mouse), Handles(edges))
  {
    cs := ApplyEach(c0, FreeEnd(side, mouse), edges);
  }

  /** `refresh_node_edges` for node widget `e`: each edge widget touching the node
      (`node_edges`) has its end on the node re-anchored at the node's corner; since the
      update leaves every other widget as it is, this is the update applied to all. */
  method RefreshNodeEdges(c0: seq<Child>, e: Entity) returns (cs: seq<Child>)
    requires NodeAt(c0, e).Some?
    ensures var node := NodeAt(c0, e).value;
            cs == ApplyAll(c0, EdgeEnds(node.nodeId, ThicknessToPoint(node.margin)))
  {
    var node := NodeAt(c0, e).value;
    var u := EdgeEnds(node.nodeId, ThicknessToPoint(node.margin));
    var es := Select(c0, TouchesNode(node.nodeId));
    cs := ApplyEach(c0, u, es);
    SelectedCover(c0, u, TouchesNode(node.nodeId));
  }

  /** `refresh_node_slots` for widget `e`: if it is a node widget, each of its slot
      widgets (`node_slots`) is put where `position_slot` places it for the node's margin. */
  method RefreshNodeSlots(c0: seq<Child>, e: Entity) returns (cs: seq<Child>)
    ensures NodeAt(c0, e).None? ==> cs == c0
    ensures NodeAt(c0, e).Some? ==>
              var node := NodeAt(c0, e).value;
              cs == ApplyAll(c0, SlotMargins(node.nodeId, node.margin))
  {
    var w := NodeAt(c0, e);
    if w.None? {
      return c0;
    }
    var u := SlotMargins(w.value.nodeId, w.value.margin);
    var ss := Select(c0, SlotOfNode(w.value.nodeId));
    cs := ApplyEach(c0, u, ss);
    SelectedCover(c0, u, SlotOfNode(w.value.nodeId));
  }

  /** `refresh_node`: if `e` names a node widget, its margin follows the pointer less the
      grab offset, then its edges and its slots follow the node. */
  method RefreshNode(c0: seq<Child>, e: Entity, mouse: Point, offset: Point) returns (cs: seq<Child>)
    ensures cs == MoveNode(c0, e, mouse, offset)
  {
    var w := NodeAt(c0, e);
    if w.None? {
      return c0;
    }
    var node := w.value;
    var m := DraggedMargin(node.margin, mouse, offset);
    cs := ApplyTo(c0, SetMargin(m), {e});
    FindApplyTo(c0, SetMargin(m), {e}, e);
    ghost var c1 := cs;
    cs := RefreshNodeEdges(cs, e);
    FindApplyAll(c1, EdgeEnds(node.nodeId, ThicknessToPoint(m)), e);
    cs := RefreshNodeSlots(cs, e);
  }

  /** `create_loose_edge` for slot `k`: when the slot's node widget is found, a new edge
      widget with handle `next` is appended, anchored at the slot and with its free end
      at `free`; its handle is read back as the most recent edge widget. */
  method CreateLooseEdge(c0: seq<Child>, k: SlotKey, next: Entity, free: Point) returns (st: Status, cs: seq<Child>, e: Entity)
    ensures var w := NewLooseEdge(c0, k, next, free);
            (st.Done? <==> w.Some?) &&
            (st.Done? ==> cs == c0 + [w.value] && e == next) &&
            (st.Abort? ==> st.fault == MissingNode)
  {
    var w := NewLooseEdge(c0, k, next, free);
    if w.None? {
      return Abort(MissingNode), c0, 0;
    }
    cs := c0 + [w.value];
    var recent := MostRecentOfKind(cs, EdgeWidget);
    e := recent.value;
    st := Done;
  }

  /** `ctx.remove_child` for each listed handle, in order. */
  method RemoveEach(c0: seq<Child>, es: seq<Entity>) returns (cs: seq<Child>)
    ensures cs == Without(c0, ByHandle(es))
  {
    cs := c0;
    WithoutNoHandles(c0);
    assert es[..0] == [];
    for i := 0 to |es|
      invariant cs == Without(c0, ByHandle(es[..i]))
    {
      WithoutTwice(c0, ByHandle(es[..i]).queries, HasEntity(es[i]));
      ByHandleStep(es, i);
      cs := Without(cs, HasEntity(es[i]));
    }
    assert es[..|es|] == es;
  }

  /** The loop of `remove_dragged_edges`: each listed edge widget's connection is
      removed from the graph, then the widget itself. It stops where the source panics,
      at a handle that names no edge widget. */
  method RemoveEdgeWidgets(c0: seq<Child>, g0: Graph, es: seq<Entity>) returns (st: Status, cs: seq<Child>, g: Graph)
    requires Distinct(c0) && NoDuplicates(es)
    ensures st.Done? <==> AllEdges(c0, es)
    ensures st.Abort? ==> st.fault == MissingWidget
    ensures st.Done? ==> cs == Without(c0, ByHandle(es)) && g == RemoveEdges(g0, Cores(c0, es))
  {
    cs, g := c0, g0;
    WithoutNoHandles(c0);
    assert es[..0] == [];
    for i := 0 to |es|
      invariant AllEdges(c0, es[..i])
      invariant cs == Without(c0, ByHandle(es[..i]))
      invariant g == RemoveEdges(g0, Cores(c0, es[..i]))
    {
      RemovalStep(c0, es, i);
      var w := EdgeAt(cs, es[i]);
      if w.None? {
        return Abort(MissingWidget), cs, g;
      }
      CoresStep(c0, es, i);
      RemoveEdgesSnoc(g0, Cores(c0, es[..i]), CoreOf(w.value));
      g := RemoveEdge(g, CoreOf(w.value));
      cs := Without(cs, HasEntity(es[i]));
    }
    assert es[..|es|] == es;
    st := Done;
  }

  /** The loop of `handle_dropped_entity` for a drop on slot `k`: each dragged edge
      widget has its end on the slot's side rebound to the slot, anchored at `goal`,
      and the connection from the slot to the edge's other end is requested. It stops
      where the source panics, at a handle that names no edge widget. */
  method JoinEach(c0: seq<Child>, g0: Graph, es: seq<Entity>, k: SlotKey, goal: Point, accepts: ConnectRule)
    returns (st: Status, cs: seq<Child>, g: Graph)
    requires NoDuplicates(es)
    ensures st.Done? <==> AllEdges(c0, es)
    ensures st.Abort? ==> st.fault == MissingWidget
    ensures st.Done? ==> cs == ApplyTo(c0, Rebind(k, goal), Handles(es)) && g == ConnectAll(g0, Joins(c0, es, k), accepts)
  {
    cs, g := c0, g0;
    assert Handles(es[..0]) == {};
    assert es[..0] == [];
    for i := 0 to |es|
      invariant AllEdges(c0, es[..i])
      invariant cs == ApplyTo(c0, Rebind(k, goal), Handles(es[..i]))
      invariant g == ConnectAll(g0, Joins(c0, es[..i], k), accepts)
    {
      assert es[i] !in Handles(es[..i]);
      FindApplyTo(c0, Rebind(k, goal), Handles(es[..i]), es[i]);
      var w := EdgeAt(cs, es[i]);
      if w.None? {
        return Abort(MissingWidget), cs, g;
      }
      JoinsStep(c0, es, k, i);
      ConnectAllSnoc(g0, Joins(c0, es[..i], k), Join(w.value, k), accepts);
      ApplyToStep(c0, Rebind(k, goal), Handles(es[..i]), es[i]);
      HandlesStep(es, i);
      cs := ApplyTo(cs, Rebind(k, goal), {es[i]});
      g := Connect(g, Join(w.value, k), accepts);
    }
    assert es[..|es|] == es;
    st := Done;
  }

  lemma JoinsStep(cs: seq<Child>, es: seq<Entity>, k: SlotKey, i: nat)
    requires i < |es| && AllEdges(cs, es[..i]) && EdgeAt(cs, es[i]).Some?
    ensures AllEdges(cs, es[..i + 1])
    ensures Joins(cs, es[..i + 1], k) == Joins(cs, es[..i], k) + [Join(EdgeAt(cs, es[i]).value, k)]
  {
    assert forall j :: 0 <= j < i ==> es[..i + 1][j] == es[..i][j];
  }

  lemma ConnectAllSnoc(g: Graph, es: seq<CoreEdge>, e: CoreEdge, accepts: ConnectRule)
    ensures ConnectAll(g, es + [e], accepts) == Connect(ConnectAll(g, es, accepts), e, accepts)
  {
    assert (es + [e])[..|es|] == es;
  }

  /** The loop of `update_node_to_graph`: every record of node `id`, in place, gets
      point `p`. */
  method MoveRecords(locs: seq<Location>, id: NodeId, p: Point) returns (r: seq<Location>)
    ensures r == MoveLocations(locs, id, p)
  {
    r := locs;
    for i := 0 to |r|
      invariant |r| == |locs|
      invariant forall j :: 0 <= j < i ==> r[j] == MoveLocations(locs, id, p)[j]
      invariant forall j :: i <= j < |r| ==> r[j] == locs[j]
    {
      if r[i].nodeId == id {
        r := r[i := Location(id, p)];
      }
    }
  }

  /** `create_edge` for each connection of `es` in turn, the new widgets numbered from
      `first`. It stops where the source panics, at a connection one of whose nodes has
      no location. */
  method CreateEdges(c0: seq<Child>, first: Entity, es: seq<CoreEdge>, locs: seq<Location>)
    returns (st: Status, cs: seq<Child>, next: Entity)
    ensures st.Done? <==> forall e :: e in es ==> Placed(locs, e)
    ensures st.Abort? ==> st.fault == MissingLocation
    ensures st.Done? ==> cs == c0 + NewEdges(es, locs, first) && next == first + |es|
  {
    cs, next := c0, first;
    assert es[..0] == [];
    for i := 0 to |es|
      invariant forall e :: e in es[..i] ==> Placed(locs, e)
      invariant cs == c0 + NewEdges(es[..i], locs, first) && next == first + i
    {
      if !Placed(locs, es[i]) {
        assert es[i] in es;
        return Abort(MissingLocation), cs, next;
      }
      NewEdgesStep(es, locs, first, i);
      cs := cs + [EdgeChild(es[i], locs, next)];
      next := next + 1;
    }
    assert es[..|es|] == es;
    st := Done;
  }

  /** One loop of `populate_node_slots`: `count` slot widgets for one side of node `id`,
      placed by `position_slot` from the node's margin and numbered from `first`. */
  method AppendSlotRow(c0: seq<Child>, first: Entity, id: NodeId, side: Side, count: nat, nodeMargin: Thickness)
    returns (cs: seq<Child>, next: Entity)
    ensures cs == c0 + SlotRow(id, side, count, nodeMargin, first) && next == first + count
  {
    cs, next := c0, first;
    for i := 0 to count
      invariant cs == c0 + SlotRow(id, side, i, nodeMargin, first) && next == first + i
    {
      assert SlotRow(id, side, i + 1, nodeMargin, first)
          == SlotRow(id, side, i, nodeMargin, first) + [Slot(first + i, id, side, i, PositionSlot(side, i, nodeMargin), true)];
      cs := cs + [Slot(next, id, side, i, PositionSlot(side, i, nodeMargin), true)];
      next := next + 1;
    }
  }

  /** `delete_edges_in_slot`: when `s` names a slot widget, every edge widget attached to
      the slot is removed, one handle at a time; otherwise nothing changes. */
  method DeleteEdgesInSlot(c0: seq<Child>, s: Entity) returns (cs: seq<Child>)
    requires Distinct(c0)
    ensures SlotKeyOf(c0, s).None? ==> cs == c0
    ensures SlotKeyOf(c0, s).Some? ==> cs == Without(c0, InSlot(SlotKeyOf(c0, s).value))
  {
    var k := SlotKeyOf(c0, s);
    if k.None? {
      return c0;
    }
    var es := Select(c0, InSlot(k.value));
    cs := RemoveEach(c0, es);
    WithoutSelected(c0, InSlot(k.value), es);
  }

  /** `update_slot_edges_from_graph` for slot widget `s`: the slot's edge widgets are
      removed, then one edge widget per connection the graph holds in the slot is
      created, numbered from `next`. It stops where the source panics: `s` is not a slot
      widget, or a connection has a node without a location. */
  method UpdateSlotEdgesFromGraph(c0: seq<Child>, next: Entity, s: Entity, g: Graph, locs: seq<Location>)
    returns (st: Status, cs: seq<Child>, next2: Entity)
    requires Distinct(c0)
    ensures SlotKeyOf(c0, s).None? ==> st == Abort(MissingWidget)
    ensures SlotKeyOf(c0, s).Some? ==>
              var k := SlotKeyOf(c0, s).value;
              (st.Done? <==> SlotPlaced(g, k, locs)) &&
              (st.Abort? ==> st.fault == MissingLocation) &&
              (st.Done? ==> cs == Resynced(c0, g, locs, k, next) && next2 == next + |SlotConnections(g, k)|)
  {
    cs := DeleteEdgesInSlot(c0, s);
    ghost var k0 := SlotKeyOf(c0, s);
    if k0.Some? {
      FindWithout(c0, InSlot(k0.value), s);
    }
    var k := SlotKeyOf(cs, s);
    if k.None? {
      return Abort(MissingWidget), cs, next;
    }
    st, cs, next2 := CreateEdges(cs, next, SlotConnections(g, k.value), locs);
  }

  /** `delete_slot`: when `s` names a slot widget, the edges attached to it go, then the
      slot itself. */
  method DeleteSlot(c0: seq<Child>, s: Entity) returns (cs: seq<Child>)
    requires Distinct(c0)
    ensures SlotKeyOf(c0, s).None? ==> cs == c0
    ensures SlotKeyOf(c0, s).Some? ==> cs == Without(Without(c0, InSlot(SlotKeyOf(c0, s).value)), HasEntity(s))
  {
    var k := SlotKeyOf(c0, s);
    if k.None? {
      return c0;
    }
    cs := DeleteEdgesInSlot(c0, s);
    cs := Without(cs, HasEntity(s));
  }

  /** `disconnect_node`: when `e` names a node widget, each of the node's slot widgets
      (`get_slots_in_node`) is deleted in list order, with its edges. */
  method DisconnectNode(c0: seq<Child>, e: Entity) returns (cs: seq<Child>)
    requires Distinct(c0)
    ensures NodeAt(c0, e).None? ==> cs == c0
    ensures NodeAt(c0, e).Some? ==> cs == Without(c0, AnyOf(SlotRemovals(Keep(c0, SlotOfNode(NodeAt(c0, e).value.nodeId)))))
  {
    var w := NodeAt(c0, e);
    if w.None? {
      return c0;
    }
    var q := SlotOfNode(w.value.nodeId);
    var ss := Select(c0, q);
    var slots := Keep(c0, q);
    SelectIsKept(c0, q);
    DistinctKeep(c0, q);
    cs := c0;
    WithoutNothing(c0, AnyOf([]));
    assert slots[..0] == [];
    for i := 0 to |ss|
      invariant forall c :: c in slots[..i] ==> c.Slot?
      invariant cs == Without(c0, AnyOf(SlotRemovals(slots[..i])))
    {
      cs := DeleteNextSlot(c0, slots, i, cs);
    }
    assert slots[..|slots|] == slots;
  }

  /** One turn of `disconnect_node`'s loop: with the first `i` slot widgets gone, the
      next one goes with its edges. */
  method DeleteNextSlot(c0: seq<Child>, slots: seq<Child>, i: nat, cs: seq<Child>) returns (r: seq<Child>)
    requires Distinct(c0) && Distinct(slots) && i < |slots|
    requires forall c :: c in slots ==> c in c0 && c.Slot?
    requires forall c :: c in slots[..i] ==> c.Slot?
    requires cs == Without(c0, AnyOf(SlotRemovals(slots[..i])))
    ensures forall c :: c in slots[..i + 1] ==> c.Slot?
    ensures r == Without(c0, AnyOf(SlotRemovals(slots[..i + 1])))
  {
    SlotStillThere(c0, slots, i);
    DistinctWithout(c0, AnyOf(SlotRemovals(slots[..i])));
    r := DeleteSlot(cs, slots[i].entity);
    SlotRemovalsStep(c0, slots, i);
  }

  /** `delete_node`: when `e` names a node widget, its node leaves the graph with every
      connection touching it, its slot widgets go with their edges (`disconnect_node`),
      and then the node widget itself goes. */
  method DeleteNode(c0: seq<Child>, g0: Graph, e: Entity) returns (cs: seq<Child>, g: Graph)
    requires Distinct(c0)
    ensures NodeAt(c0, e).None? ==> cs == c0 && g == g0
    ensures NodeAt(c0, e).Some? ==>
              cs == DeleteNodeChildren(c0, e) && g == RemoveNode(g0, NodeAt(c0, e).value.nodeId)
  {
    var w := NodeAt(c0, e);
    if w.None? {
      return c0, g0;
    }
    g := RemoveNode(g0, w.value.nodeId);
    cs := DisconnectNode(c0, e);
    cs := Without(cs, HasEntity(e));
    WithoutTwice(c0, SlotRemovals(Keep(c0, SlotOfNode(w.value.nodeId))), HasEntity(e));
  }

  /** While deleting the slots of a node in order, the next slot is still there. */
  lemma SlotStillThere(c0: seq<Child>, slots: seq<Child>, i: nat)
    requires Distinct(c0) && Distinct(slots) && i < |slots|
    requires forall c :: c in slots ==> c in c0 && c.Slot?
    ensures forall c :: c in slots[..i] ==> c.Slot?
    ensures Find(Without(c0, AnyOf(SlotRemovals(slots[..i]))), slots[i].entity) == Some(slots[i])
  {
    var front := slots[..i];
    assert forall c :: c in front ==> c in slots;
    SlotRemovalsMatch(front, slots[i]);
    FindDistinct(c0, slots[i]);
    FindWithout(c0, AnyOf(SlotRemovals(front)), slots[i].entity);
  }

  /** Deleting one more slot extends the removal by that slot's two queries. */
  lemma SlotRemovalsStep(c0: seq<Child>, slots: seq<Child>, i: nat)
    requires i < |slots| && forall c :: c in slots ==> c.Slot?
    ensures forall c :: c in slots[..i + 1] ==> c.Slot?
    ensures Without(Without(Without(c0, AnyOf(SlotRemovals(slots[..i]))), InSlot(slots[i].Key())), HasEntity(slots[i].entity))
         == Without(c0, AnyOf(SlotRemovals(slots[..i + 1])))
  {
    assert forall c :: c in slots[..i] ==> c in slots;
    assert forall c :: c in slots[..i + 1] ==> c in slots;
    var qs := SlotRemovals(slots[..i]);
    WithoutTwice(c0, qs, InSlot(slots[i].Key()));
    WithoutTwice(c0, qs + [InSlot(slots[i].Key())], HasEntity(slots[i].entity));
    assert slots[..i + 1][..i] == slots[..i];
    assert qs + [InSlot(slots[i].Key())] + [HasEntity(slots[i].entity)]
        == qs + [InSlot(slots[i].Key()), HasEntity(slots[i].entity)];
  }
}
