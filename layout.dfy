/** The spatial layer of the editor (one `Location` record per node) and the visual
    widgets the controller derives from the graph and that layer: the slots of a node
    (`populate_node_slots`) and the edge of a committed connection (`create_edge`), and
    the resync of one slot's edges from the graph (`update_slot_edges_from_graph`). */
module Layout {
  import opened Wrappers
  import opened Geometry
  import opened CoreGraph
  import opened Visual

  /** Where a node was last put down (`Location { node_id, point }`). */
  datatype Location = Location(nodeId: NodeId, point: Point)

  /** `try_get_location`: the point of the first record for `id`. */
  function TryGetLocation(locs: seq<Location>, id: NodeId): (r: Option<Point>)
    ensures r.None? <==> forall l :: l in locs ==> l.nodeId != id
    ensures r.Some? ==> exists i :: 0 <= i < |locs| && locs[i] == Location(id, r.value)
                                 && forall j :: 0 <= j < i ==> locs[j].nodeId != id
  {
    if locs == [] then None
    else if locs[0].nodeId == id then Some(locs[0].point)
    else
      var r := TryGetLocation(locs[1..], id);
      assert forall j :: 0 <= j < |locs| - 1 ==> locs[1..][j] == locs[j + 1];
      r
  }

  /** Appending a record never changes which record is found first for a node that
      already had one; so the record `populate_node` appends for a node that had a
      location is never the one read back. */
  lemma {:induction false} AppendKeepsFirstMatch(locs: seq<Location>, l: Location, id: NodeId)
    ensures TryGetLocation(locs + [l], id)
         == if TryGetLocation(locs, id).Some? then TryGetLocation(locs, id)
            else if l.nodeId == id then Some(l.point)
            else None
  {
    if locs != [] {
      assert (locs + [l])[1..] == locs[1..] + [l];
      AppendKeepsFirstMatch(locs[1..], l, id);
    }
  }

  /** `update_node_to_graph`'s rewrite: every record of `id` is moved to `p`. */
  function MoveLocations(locs: seq<Location>, id: NodeId, p: Point): (r: seq<Location>)
    ensures |r| == |locs|
  {
    seq(|locs|, i requires 0 <= i < |locs| => if locs[i].nodeId == id then Location(id, p) else locs[i])
  }

  /** After the rewrite, the node is found at `p` if it has any record, and every other
      node is found where it was. */
  lemma MoveLocationsFound(locs: seq<Location>, id: NodeId, p: Point, other: NodeId)
    ensures TryGetLocation(MoveLocations(locs, id, p), id) == if TryGetLocation(locs, id).Some? then Some(p) else None
    ensures other != id ==> TryGetLocation(MoveLocations(locs, id, p), other) == TryGetLocation(locs, other)
  {
    var r := MoveLocations(locs, id, p);
    FoundMoved(locs, r, id, p);
    if other != id {
      FoundUnmoved(locs, r, other);
    }
  }

  lemma {:induction false} FoundMoved(a: seq<Location>, b: seq<Location>, id: NodeId, p: Point)
    requires |a| == |b|
    requires forall j :: 0 <= j < |a| ==> a[j].nodeId == b[j].nodeId
    requires forall j :: 0 <= j < |a| && a[j].nodeId == id ==> b[j].point == p
    ensures TryGetLocation(b, id) == if TryGetLocation(a, id).Some? then Some(p) else None
  {
    if a != [] && a[0].nodeId != id {
      assert forall j :: 0 <= j < |a| - 1 ==> a[1..][j] == a[j + 1] && b[1..][j] == b[j + 1];
      FoundMoved(a[1..], b[1..], id, p);
    }
  }

  lemma {:induction false} FoundUnmoved(a: seq<Location>, b: seq<Location>, id: NodeId)
    requires |a| == |b|
    requires forall j :: 0 <= j < |a| ==> a[j].nodeId == b[j].nodeId
    requires forall j :: 0 <= j < |a| && a[j].nodeId == id ==> b[j] == a[j]
    ensures TryGetLocation(b, id) == TryGetLocation(a, id)
  {
    if a != [] && a[0].nodeId != id {
      assert forall j :: 0 <= j < |a| - 1 ==> a[1..][j] == a[j + 1] && b[1..][j] == b[j + 1];
      FoundUnmoved(a[1..], b[1..], id);
    }
  }

  /** The slot widgets `populate_node_slots` appends for one side of a node, numbered from
      handle `first`. */
  function SlotRow(id: NodeId, side: Side, count: nat, nodeMargin: Thickness, first: Entity): (r: seq<Child>)
    ensures |r| == count
  {
    seq(count, i requires 0 <= i < count => Slot(first + i, id, side, i, PositionSlot(side, i, nodeMargin), true))
  }

  /** The slot widgets of a node: its input row, then its output row. Every slot of the
      node sits where `position_slot` puts it and there is exactly one per (side, index). */
  function NodeSlots(id: NodeId, inputs: nat, outputs: nat, nodeMargin: Thickness, first: Entity): (r: seq<Child>)
    ensures |r| == inputs + outputs
    ensures forall c :: c in r ==>
              (c.Slot? && c.nodeId == id && c.enabled
               && c.margin == PositionSlot(c.side, c.slotId, nodeMargin)
               && first <= c.entity < first + inputs + outputs
               && c.slotId < (if c.side == Input then inputs else outputs))
    ensures forall i :: 0 <= i < inputs ==> r[i].Slot? && r[i].Key() == SlotKey(id, Input, i)
    ensures forall i :: 0 <= i < outputs ==> r[inputs + i].Slot? && r[inputs + i].Key() == SlotKey(id, Output, i)
  {
    SlotRow(id, Input, inputs, nodeMargin, first) + SlotRow(id, Output, outputs, nodeMargin, first + inputs)
  }

  /** A committed connection can be drawn when both of its nodes have a location. */
  predicate Placed(locs: seq<Location>, e: CoreEdge) {
    TryGetLocation(locs, e.outputId).Some? && TryGetLocation(locs, e.inputId).Some?
  }

  /** `create_edge`: the Edge widget for a committed connection, with both ends anchored
      at their slots on the nodes' first recorded locations. */
  function EdgeChild(e: CoreEdge, locs: seq<Location>, entity: Entity): (c: Child)
    requires Placed(locs, e)
    ensures c.Edge? && c.entity == entity && CoreOf(c) == e
  {
    Edge(entity, e.outputId, e.inputId, e.outputSlot, e.inputSlot,
         PositionEdge(Output, e.outputSlot, TryGetLocation(locs, e.outputId).value),
         PositionEdge(Input, e.inputSlot, TryGetLocation(locs, e.inputId).value))
  }

  /** The widgets `create_edge` appends for each connection of `es` in turn. */
  function NewEdges(es: seq<CoreEdge>, locs: seq<Location>, first: Entity): (r: seq<Child>)
    requires forall e :: e in es ==> Placed(locs, e)
    ensures |r| == |es|
    ensures forall i :: 0 <= i < |es| ==> r[i] == EdgeChild(es[i], locs, first + i)
  {
    seq(|es|, i requires 0 <= i < |es| => EdgeChild(es[i], locs, first + i))
  }

  lemma NewEdgesStep(es: seq<CoreEdge>, locs: seq<Location>, first: Entity, i: nat)
    requires i < |es|
    requires forall e :: e in es[..i] ==> Placed(locs, e)
    requires Placed(locs, es[i])
    ensures forall e :: e in es[..i + 1] ==> Placed(locs, e)
    ensures NewEdges(es[..i + 1], locs, first) == NewEdges(es[..i], locs, first) + [EdgeChild(es[i], locs, first + i)]
  {
    assert es[..i + 1] == es[..i] + [es[i]];
  }

  /** The connections the graph holds in a slot. */
  function SlotConnections(g: Graph, k: SlotKey): seq<CoreEdge> {
    EdgesInSlot(g, k.nodeId, k.side, k.slotId)
  }

  /** Every connection the graph holds in slot `k` has both its nodes placed. */
  predicate SlotPlaced(g: Graph, k: SlotKey, locs: seq<Location>) {
    forall e :: e in SlotConnections(g, k) ==> Placed(locs, e)
  }

  /** `update_slot_edges_from_graph` on slot `k` of a child list: the visual edges of the
      slot are dropped and one widget per connection of the slot is appended. */
  function Resynced(cs: seq<Child>, g: Graph, locs: seq<Location>, k: SlotKey, first: Entity): seq<Child>
    requires SlotPlaced(g, k, locs)
  {
    Without(cs, InSlot(k)) + NewEdges(SlotConnections(g, k), locs, first)
  }

  /** After a resync, every child not attached to the slot is kept, in order, and the
      widgets attached to the slot are exactly the ones created from the connections the
      graph holds in it, in the graph's order. */
  lemma ResyncMatchesGraph(cs: seq<Child>, g: Graph, locs: seq<Location>, k: SlotKey, first: Entity)
    requires SlotPlaced(g, k, locs)
    ensures Without(Resynced(cs, g, locs, k, first), InSlot(k)) == Without(cs, InSlot(k))
    ensures Keep(Resynced(cs, g, locs, k, first), InSlot(k)) == NewEdges(SlotConnections(g, k), locs, first)
  {
    var kept, added := Without(cs, InSlot(k)), NewEdges(SlotConnections(g, k), locs, first);
    AllAttached(SlotConnections(g, k), locs, first, k);
    WithoutConcat(kept, added, InSlot(k));
    WithoutNothing(kept, InSlot(k));
    WithoutEverything(added, InSlot(k));
    KeepConcat(kept, added, InSlot(k));
    KeepNothing(kept, InSlot(k));
    KeepEverything(added, InSlot(k));
  }

  /** The i-th widget attached to a resynced slot draws the slot's i-th connection, with
      its ends at `position_edge` of the connected slots on the nodes' first locations. */
  lemma ResyncAnchors(cs: seq<Child>, g: Graph, locs: seq<Location>, k: SlotKey, first: Entity, i: nat)
    requires SlotPlaced(g, k, locs)
    requires i < |SlotConnections(g, k)|
    ensures var attached, e := Keep(Resynced(cs, g, locs, k, first), InSlot(k)), SlotConnections(g, k)[i];
            i < |attached| && attached[i].Edge? && CoreOf(attached[i]) == e
            && EdgeInSlot(e, k.nodeId, k.side, k.slotId)
            && attached[i].outputPoint == PositionEdge(Output, e.outputSlot, TryGetLocation(locs, e.outputId).value)
            && attached[i].inputPoint == PositionEdge(Input, e.inputSlot, TryGetLocation(locs, e.inputId).value)
  {
    ResyncMatchesGraph(cs, g, locs, k, first);
    assert SlotConnections(g, k)[i] in SlotConnections(g, k);
  }

  lemma AllAttached(es: seq<CoreEdge>, locs: seq<Location>, first: Entity, k: SlotKey)
    requires forall e :: e in es ==> Placed(locs, e) && EdgeInSlot(e, k.nodeId, k.side, k.slotId)
    ensures forall c :: c in NewEdges(es, locs, first) ==> Matches(c, InSlot(k))
  {
    var r := NewEdges(es, locs, first);
    forall c | c in r ensures Matches(c, InSlot(k)) {
      var i :| 0 <= i < |r| && r[i] == c;
      assert es[i] in es;
    }
  }

  /** Resyncing a slot twice with the graph unchanged gives the same list as resyncing
      it once, except that the re-created edge widgets carry new handles. */
  lemma ResyncIdempotent(cs: seq<Child>, g: Graph, locs: seq<Location>, k: SlotKey, first: Entity, again: Entity)
    requires SlotPlaced(g, k, locs)
    ensures var once := Resynced(cs, g, locs, k, first);
            var twice := Resynced(once, g, locs, k, again);
            |twice| == |once| &&
            forall i :: 0 <= i < |once| ==> twice[i] == once[i].(entity := twice[i].entity)
  {
    var once := Resynced(cs, g, locs, k, first);
    ResyncMatchesGraph(cs, g, locs, k, first);
  }
}
