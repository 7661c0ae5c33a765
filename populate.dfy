/** Building the editor's widgets from the graph and its locations
    (src/node_container.rs): `populate_node` for one graph node, `populate_node_slots`
    for the slots of a node widget, and `populate_workspace`, which a load runs to
    rebuild every widget from a freshly read graph. */
module Populate {
  import opened Wrappers
  import opened Geometry
  import opened CoreGraph
  import opened Visual
  import opened Layout
  import opened ContainerSpec
  import opened Passes

  /** `populate_node_slots` on node widget `w`: its input slot row, then its output row,
      numbered from `first` and placed by `position_slot` from the node's margin. */
  function SlotsOf(w: Child, first: Entity): seq<Child>
    requires w.Node?
  {
    NodeSlots(w.nodeId, w.slotCountInput, w.slotCountOutput, w.margin, first)
  }

  /** `populate_node` for graph node `id`: a location record is appended (the node's
      first recorded point, or the origin), then a node widget at that point, then the
      node's slots. Where the source panics, the graph has no node with the id. */
  function PopulatedNode(sc: Scene, id: NodeId): (r: Outcome)
    ensures r.Edited? <==> exists n :: n in sc.graph.nodes && n.id == id
    ensures r.Failed? ==> r.fault == MissingNode
  {
    match NodeWithId(sc.graph.nodes, id)
    case None => Failed(MissingNode)
    case Some(n) =>
      var p := TryGetLocation(sc.locations, id).GetOr(ORIGIN);
      var w := NodeWidgetFor(n, p, sc.next);
      Edited(Scene(sc.children + [w] + SlotsOf(w, sc.next + 1), sc.next + 1 + w.slotCountInput + w.slotCountOutput,
                   sc.graph, sc.locations + [Location(id, p)]))
  }

  /** The records after `populate_node`: the node is found at its earlier place if it
      had one and at the origin otherwise, and every other node where it was. */
  lemma PopulatedNodeRecords(sc: Scene, id: NodeId, other: NodeId)
    requires PopulatedNode(sc, id).Edited?
    ensures var r, p := PopulatedNode(sc, id).scene, TryGetLocation(sc.locations, id).GetOr(ORIGIN);
            r.graph == sc.graph &&
            TryGetLocation(r.locations, id) == Some(p) &&
            (other != id ==> TryGetLocation(r.locations, other) == TryGetLocation(sc.locations, other))
  {
    var p := TryGetLocation(sc.locations, id).GetOr(ORIGIN);
    AppendKeepsFirstMatch(sc.locations, Location(id, p), id);
    AppendKeepsFirstMatch(sc.locations, Location(id, p), other);
  }

  /** The widgets after `populate_node` for graph node `n`: the old ones, then the node
      widget for `n` with its corner at the node's place, then its slots. */
  lemma PopulatedNodeWidget(sc: Scene, id: NodeId, n: CoreNode)
    requires NodeWithId(sc.graph.nodes, id) == Some(n)
    ensures var r, p := PopulatedNode(sc, id).scene, TryGetLocation(sc.locations, id).GetOr(ORIGIN);
            var w := NodeWidgetFor(n, p, sc.next);
            r.children == sc.children + [w] + SlotsOf(w, sc.next + 1) &&
            ThicknessToPoint(w.margin) == p
  {
  }

  /** The slot widgets `populate_node` creates for graph node `n`: all of them belong to
      the node; an input node shows no input slot and an output node no output slot;
      every other node shows, on each side, one slot per unit of the library's
      capacity, inputs first. */
  lemma NodeSlotsShown(n: CoreNode, p: Point, e: Entity, first: Entity)
    ensures var slots := SlotsOf(NodeWidgetFor(n, p, e), first);
            (forall c :: c in slots ==> c.Slot? && c.nodeId == n.id) &&
            (forall c :: c in slots && c.Slot? && c.side == Input ==>
               !(n.nodeType == InputGray || n.nodeType == InputRgba) && c.slotId < n.inputCapacity) &&
            (forall c :: c in slots && c.Slot? && c.side == Output ==>
               !(n.nodeType == OutputGray || n.nodeType == OutputRgba) && c.slotId < n.outputCapacity) &&
            (!(n.nodeType == InputGray || n.nodeType == InputRgba) ==>
               forall i :: 0 <= i < n.inputCapacity ==> slots[i].Slot? && slots[i].Key() == SlotKey(n.id, Input, i)) &&
            (!(n.nodeType == OutputGray || n.nodeType == OutputRgba) ==>
               forall i :: 0 <= i < n.outputCapacity ==>
                 |slots| - n.outputCapacity + i < |slots| &&
                 slots[|slots| - n.outputCapacity + i].Slot? &&
                 slots[|slots| - n.outputCapacity + i].Key() == SlotKey(n.id, Output, i))
  {
    var w := NodeWidgetFor(n, p, e);
    var slots := SlotsOf(w, first);
    if !(n.nodeType == OutputGray || n.nodeType == OutputRgba) {
      forall i | 0 <= i < n.outputCapacity
        ensures slots[|slots| - n.outputCapacity + i].Slot? && slots[|slots| - n.outputCapacity + i].Key() == SlotKey(n.id, Output, i)
      {
        assert |slots| - n.outputCapacity + i == w.slotCountInput + i;
      }
    }
  }

  /** The node widget `populate_node` creates is the most recent node widget, which is
      how `handle_add_node` finds it. */
  lemma PopulatedNodeMostRecent(sc: Scene, id: NodeId, n: CoreNode)
    requires NodeWithId(sc.graph.nodes, id) == Some(n)
    ensures MostRecentOfKind(PopulatedNode(sc, id).scene.children, NodeWidget) == Some(sc.next)
  {
    var p := TryGetLocation(sc.locations, id).GetOr(ORIGIN);
    var w := NodeWidgetFor(n, p, sc.next);
    PopulatedNodeWidget(sc, id, n);
    var slots := SlotsOf(w, sc.next + 1);
    assert forall c :: c in slots ==> c.Slot?;
    LastNodeWidget(sc.children + [w], slots);
  }

  /** A node widget followed only by slots is the most recent node widget. */
  lemma {:induction false} LastNodeWidget(cs: seq<Child>, slots: seq<Child>)
    requires cs != [] && cs[|cs| - 1].Node?
    requires forall c :: c in slots ==> c.Slot?
    ensures MostRecentOfKind(cs + slots, NodeWidget) == Some(cs[|cs| - 1].entity)
  {
    if slots != [] {
      var front := slots[..|slots| - 1];
      assert (cs + slots)[..|cs + slots| - 1] == cs + front;
      assert forall c :: c in front ==> c in slots;
      assert slots[|slots| - 1] in slots;
      LastNodeWidget(cs, front);
    } else {
      assert cs + slots == cs;
    }
  }

  /** `populate_node` keeps the list in order: the node widget and its slots take the
      next free handles in turn, and none is selected. */
  lemma WellFormedPopulatedNode(sc: Scene, id: NodeId, sel: Option<DragDrop>)
    requires WellFormed(sc.children, sc.next, sel)
    requires PopulatedNode(sc, id).Edited?
    ensures var r := PopulatedNode(sc, id).scene; WellFormed(r.children, r.next, sel)
  {
    var p := TryGetLocation(sc.locations, id).GetOr(ORIGIN);
    var w := NodeWidgetFor(NodeWithId(sc.graph.nodes, id).value, p, sc.next);
    var slots := SlotsOf(w, sc.next + 1);
    WellFormedRun(sc.children, [w], sc.next, sel);
    forall i | 0 <= i < |slots| ensures slots[i].entity == sc.next + 1 + i && !(slots[i].Node? && slots[i].selected) {
      assert slots[i] == (if i < w.slotCountInput then SlotRow(w.nodeId, Input, w.slotCountInput, w.margin, sc.next + 1)[i]
                          else SlotRow(w.nodeId, Output, w.slotCountOutput, w.margin, sc.next + 1 + w.slotCountInput)[i - w.slotCountInput]);
    }
    WellFormedRun(sc.children + [w], slots, sc.next + 1, sel);
  }

  /** `populate_node_slots` for widget `e`: when it is a node widget, its slot rows are
      appended, numbered from `next`. Where the source panics, `e` is no node widget. */
  method PopulateNodeSlots(c0: seq<Child>, next: Entity, e: Entity) returns (st: Status, cs: seq<Child>, next2: Entity)
    ensures NodeAt(c0, e).None? ==> st == Abort(MissingWidget)
    ensures NodeAt(c0, e).Some? ==>
              var w := NodeAt(c0, e).value;
              st.Done? && cs == c0 + SlotsOf(w, next) && next2 == next + w.slotCountInput + w.slotCountOutput
  {
    var found := NodeAt(c0, e);
    if found.None? {
      return Abort(MissingWidget), c0, next;
    }
    var w := found.value;
    cs, next2 := AppendSlotRow(c0, next, w.nodeId, Input, w.slotCountInput, w.margin);
    cs, next2 := AppendSlotRow(cs, next2, w.nodeId, Output, w.slotCountOutput, w.margin);
    assert c0 + SlotRow(w.nodeId, Input, w.slotCountInput, w.margin, next)
              + SlotRow(w.nodeId, Output, w.slotCountOutput, w.margin, next + w.slotCountInput)
        == c0 + SlotsOf(w, next);
    st := Done;
  }

  /** `populate_node` on a scene whose handles are unique and below the next free one:
      the node widget is read back as the most recent node widget and its slots are
      appended after it. */
  method PopulateNode(sc: Scene, id: NodeId) returns (st: Status, r: Scene)
    requires Distinct(sc.children) && HandlesBelow(sc.children, sc.next) && 0 < sc.next
    ensures var o := PopulatedNode(sc, id);
            (st.Done? <==> o.Edited?) && (st.Done? ==> r == o.scene) && (st.Abort? ==> st.fault == o.fault)
  {
    var n := NodeWithId(sc.graph.nodes, id);
    if n.None? {
      return Abort(MissingNode), sc;
    }
    var p := TryGetLocation(sc.locations, id).GetOr(ORIGIN);
    var locs := sc.locations + [Location(id, p)];
    var w := NodeWidgetFor(n.value, p, sc.next);
    var cs := sc.children + [w];
    FreshAppend(sc.children, w, sc.next);
    assert cs[|sc.children|] == w;
    FindDistinct(cs, w);
    var created := MostRecentOfKind(cs, NodeWidget);
    var next;
    st, cs, next := PopulateNodeSlots(cs, sc.next + 1, created.value);
    r := Scene(cs, next, sc.graph, locs);
    PopulatedNodeWidget(sc, id, n.value);
  }

  /** `node_ids`: the ids of the graph's nodes, in the graph's order. */
  function NodeIds(g: Graph): (ids: seq<NodeId>)
    ensures |ids| == |g.nodes|
    ensures forall i :: 0 <= i < |ids| ==> ids[i] == g.nodes[i].id
  {
    seq(|g.nodes|, i requires 0 <= i < |g.nodes| => g.nodes[i].id)
  }

  /** `populate_nodes`: `populate_node` for each id in turn. */
  function PopulatedNodes(sc: Scene, ids: seq<NodeId>): Outcome
  {
    if ids == [] then Edited(sc)
    else
      match PopulatedNodes(sc, ids[..|ids| - 1])
      case Failed(f) => Failed(f)
      case Edited(s) => PopulatedNode(s, ids[|ids| - 1])
  }

  /** Populating the graph's own node ids never fails, keeps the graph, and leaves
      every one of those nodes with a location record. */
  lemma {:induction false} PopulatedNodesPlaced(sc: Scene, ids: seq<NodeId>)
    requires forall id :: id in ids ==> exists n :: n in sc.graph.nodes && n.id == id
    ensures PopulatedNodes(sc, ids).Edited?
    ensures PopulatedNodes(sc, ids).scene.graph == sc.graph
    ensures forall id :: id in ids ==> TryGetLocation(PopulatedNodes(sc, ids).scene.locations, id).Some?
    ensures forall id :: TryGetLocation(sc.locations, id).Some? ==>
              TryGetLocation(PopulatedNodes(sc, ids).scene.locations, id) == TryGetLocation(sc.locations, id)
  {
    if ids != [] {
      var front, last := ids[..|ids| - 1], ids[|ids| - 1];
      assert forall id :: id in front ==> id in ids;
      PopulatedNodesPlaced(sc, front);
      var s := PopulatedNodes(sc, front).scene;
      assert last in ids;
      forall id ensures TryGetLocation(PopulatedNodes(sc, ids).scene.locations, id)
                     == if id == last then Some(TryGetLocation(s.locations, last).GetOr(ORIGIN)) else TryGetLocation(s.locations, id) {
        PopulatedNodeRecords(s, last, id);
      }
      forall id | id in ids ensures TryGetLocation(PopulatedNodes(sc, ids).scene.locations, id).Some? {
        if id != last { assert id in front; }
      }
    }
  }

  /** Populating nodes keeps the list in order. */
  lemma {:induction false} WellFormedPopulatedNodes(sc: Scene, ids: seq<NodeId>, sel: Option<DragDrop>)
    requires WellFormed(sc.children, sc.next, sel)
    requires PopulatedNodes(sc, ids).Edited?
    ensures var r := PopulatedNodes(sc, ids).scene; WellFormed(r.children, r.next, sel)
  {
    if ids != [] {
      WellFormedPopulatedNodes(sc, ids[..|ids| - 1], sel);
      WellFormedPopulatedNode(PopulatedNodes(sc, ids[..|ids| - 1]).scene, ids[|ids| - 1], sel);
    }
  }

  /** The load's rebuild as the code intends it: the child list is cleared, each node of
      the graph is populated with its slots, then one edge widget per connection is
      created. Where the source panics, a connection has a node without a location. */
  function Repopulated(g: Graph, locs: seq<Location>, next: Entity): Outcome {
    match PopulatedNodes(Scene([], next, g, locs), NodeIds(g))
    case Failed(f) => Failed(f)
    case Edited(s) =>
      if forall e :: e in g.edges ==> Placed(s.locations, e) then
        Edited(s.(children := s.children + NewEdges(g.edges, s.locations, s.next), next := s.next + |g.edges|))
      else Failed(MissingLocation)
  }

  /** The last step of a load: one edge widget per connection, numbered on from the
      scene's next free handle. Where the source panics, a connection has a node
      without a location. */
  function EdgesCreated(s: Scene, edges: seq<CoreEdge>): Outcome {
    if forall e :: e in edges ==> Placed(s.locations, e) then
      Edited(s.(children := s.children + NewEdges(edges, s.locations, s.next), next := s.next + |edges|))
    else Failed(MissingLocation)
  }

  /** The intended load ends with `EdgesCreated`, as the as-written one does. */
  lemma RepopulatedEndsWithEdges(g: Graph, locs: seq<Location>, next: Entity)
    requires PopulatedNodes(Scene([], next, g, locs), NodeIds(g)).Edited?
    ensures Repopulated(g, locs, next) == EdgesCreated(PopulatedNodes(Scene([], next, g, locs), NodeIds(g)).scene, g.edges)
  {
  }

  /** No two slot widgets stand for the same slot. */
  predicate UniqueSlots(cs: seq<Child>) {
    forall i, j :: 0 <= i < j < |cs| && cs[i].Slot? && cs[j].Slot? ==> cs[i].Key() != cs[j].Key()
  }

  /** The graph's own node ids can all be populated, after which every connection
      between nodes of the graph has both of its nodes placed. */
  lemma RepopulatedNodes(g: Graph, locs: seq<Location>, next: Entity)
    ensures PopulatedNodes(Scene([], next, g, locs), NodeIds(g)).Edited?
    ensures var s := PopulatedNodes(Scene([], next, g, locs), NodeIds(g)).scene;
            s.graph == g &&
            forall e :: e in g.edges && HasEnds(g, e) ==> Placed(s.locations, e)
  {
    var sc := Scene([], next, g, locs);
    var ids := NodeIds(g);
    forall id | id in ids ensures exists n :: n in g.nodes && n.id == id {
      var i :| 0 <= i < |ids| && ids[i] == id;
      assert g.nodes[i] in g.nodes;
    }
    PopulatedNodesPlaced(sc, ids);
    var s := PopulatedNodes(sc, ids).scene;
    forall e | e in g.edges && HasEnds(g, e) ensures Placed(s.locations, e) {
      var a, b :| a in g.nodes && b in g.nodes && a.id == e.outputId && b.id == e.inputId;
      var i :| 0 <= i < |g.nodes| && g.nodes[i] == a;
      var j :| 0 <= j < |g.nodes| && g.nodes[j] == b;
      assert ids[i] in ids && ids[j] in ids;
    }
  }

  /** Both nodes of connection `e` are nodes of the graph. */
  predicate HasEnds(g: Graph, e: CoreEdge) {
    exists a, b :: a in g.nodes && b in g.nodes && a.id == e.outputId && b.id == e.inputId
  }

  /** After the rebuild of a graph whose connections join its own nodes, every
      connection is drawn by exactly one edge widget, in the graph's order, anchored at
      its slots on the nodes' locations. */
  lemma RepopulatedEdges(g: Graph, locs: seq<Location>, next: Entity)
    requires forall e :: e in g.edges ==> HasEnds(g, e)
    ensures Repopulated(g, locs, next).Edited?
    ensures var r := Repopulated(g, locs, next).scene;
            r.graph == g &&
            (forall e :: e in g.edges ==> Placed(r.locations, e)) &&
            exists first :: Keep(r.children, OfKind(EdgeWidget)) == NewEdges(g.edges, r.locations, first)
  {
    var sc := Scene([], next, g, locs);
    RepopulatedNodes(g, locs, next);
    var s := PopulatedNodes(sc, NodeIds(g)).scene;
    var added := NewEdges(g.edges, s.locations, s.next);
    assert Repopulated(g, locs, next) == Edited(s.(children := s.children + added, next := s.next + |g.edges|));
    NoEdgeWidgets(sc, NodeIds(g));
    KeepAfterNodes(s.children, added);
  }

  /** Keeping the edge widgets of a list without any, followed by edge widgets, gives
      the latter. */
  lemma KeepAfterNodes(a: seq<Child>, b: seq<Child>)
    requires forall c :: c in a ==> !c.Edge?
    requires forall c :: c in b ==> c.Edge?
    ensures Keep(a + b, OfKind(EdgeWidget)) == b
  {
    var q := OfKind(EdgeWidget);
    forall c | c in a ensures !Matches(c, q) { }
    forall c | c in b ensures Matches(c, q) { }
    KeepConcat(a, b, q);
    KeepNothing(a, q);
    KeepEverything(b, q);
    assert Keep(a, q) + Keep(b, q) == [] + b;
  }

  /** After the rebuild of a graph whose node ids are distinct, no slot has two widgets. */
  lemma RepopulatedUniqueSlots(g: Graph, locs: seq<Location>, next: Entity)
    requires forall i, j :: 0 <= i < j < |g.nodes| ==> g.nodes[i].id != g.nodes[j].id
    requires Repopulated(g, locs, next).Edited?
    ensures UniqueSlots(Repopulated(g, locs, next).scene.children)
  {
    var sc := Scene([], next, g, locs);
    var ids := NodeIds(g);
    var s := PopulatedNodes(sc, ids).scene;
    assert forall i, j :: 0 <= i < j < |ids| ==> ids[i] != ids[j];
    UniqueSlotsPopulated(sc, ids);
    NoEdgeSlots(g.edges, s.locations, s.next);
    UniqueSlotsAppend(s.children, NewEdges(g.edges, s.locations, s.next));
  }

  lemma NoEdgeSlots(es: seq<CoreEdge>, locs: seq<Location>, first: Entity)
    requires forall e :: e in es ==> Placed(locs, e)
    ensures UniqueSlots(NewEdges(es, locs, first))
    ensures forall c :: c in NewEdges(es, locs, first) ==> !c.Slot?
  {
  }

  /** Populating nodes creates no edge widget. */
  lemma {:induction false} NoEdgeWidgets(sc: Scene, ids: seq<NodeId>)
    requires sc.children == []
    requires PopulatedNodes(sc, ids).Edited?
    ensures forall c :: c in PopulatedNodes(sc, ids).scene.children ==> !c.Edge?
  {
    if ids != [] {
      NoEdgeWidgets(sc, ids[..|ids| - 1]);
    }
  }

  /** Populating nodes with distinct ids from an empty list gives each slot one widget;
      every slot widget belongs to one of the populated nodes. */
  lemma {:induction false} UniqueSlotsPopulated(sc: Scene, ids: seq<NodeId>)
    requires sc.children == []
    requires forall i, j :: 0 <= i < j < |ids| ==> ids[i] != ids[j]
    requires PopulatedNodes(sc, ids).Edited?
    ensures UniqueSlots(PopulatedNodes(sc, ids).scene.children)
    ensures forall c :: c in PopulatedNodes(sc, ids).scene.children && c.Slot? ==> c.nodeId in ids
  {
    if ids != [] {
      var front, last := ids[..|ids| - 1], ids[|ids| - 1];
      UniqueSlotsPopulated(sc, front);
      assert last !in front by {
        forall k | 0 <= k < |front| ensures front[k] != last {
          assert front[k] == ids[k];
        }
      }
      var s := PopulatedNodes(sc, front).scene;
      UniqueSlotsStep(s, last, NodeWithId(s.graph.nodes, last).value);
      forall c | c in PopulatedNodes(sc, ids).scene.children && c.Slot? ensures c.nodeId in ids {
        if c.nodeId != last { assert c.nodeId in front; }
      }
    }
  }

  /** Populating a node none of whose slots has a widget yet keeps each slot to one
      widget. */
  lemma UniqueSlotsStep(s: Scene, id: NodeId, n: CoreNode)
    requires UniqueSlots(s.children)
    requires forall c :: c in s.children && c.Slot? ==> c.nodeId != id
    requires NodeWithId(s.graph.nodes, id) == Some(n)
    ensures UniqueSlots(PopulatedNode(s, id).scene.children)
    ensures forall c :: c in PopulatedNode(s, id).scene.children && c.Slot? ==> c.nodeId == id || c in s.children
  {
    var p := TryGetLocation(s.locations, id).GetOr(ORIGIN);
    var w := NodeWidgetFor(n, p, s.next);
    var slots := SlotsOf(w, s.next + 1);
    PopulatedNodeWidget(s, id, n);
    UniqueSlotsOfNode(w, s.next + 1);
    UniqueSlotsAppend(s.children, [w]);
    UniqueSlotsAppend(s.children + [w], slots);
  }

  /** The slots of one node widget stand for distinct slots. */
  lemma UniqueSlotsOfNode(w: Child, first: Entity)
    requires w.Node?
    ensures UniqueSlots(SlotsOf(w, first))
  {
    var r := SlotsOf(w, first);
    var ins, outs := w.slotCountInput, w.slotCountOutput;
    forall i, j | 0 <= i < j < |r| && r[i].Slot? && r[j].Slot? ensures r[i].Key() != r[j].Key() {
      if i < ins && j < ins {
        assert r[i].Key() == SlotKey(w.nodeId, Input, i) && r[j].Key() == SlotKey(w.nodeId, Input, j);
      } else if i < ins {
        assert r[i].Key().side == Input && r[ins + (j - ins)].Key() == SlotKey(w.nodeId, Output, j - ins);
      } else {
        assert r[ins + (i - ins)].Key() == SlotKey(w.nodeId, Output, i - ins);
        assert r[ins + (j - ins)].Key() == SlotKey(w.nodeId, Output, j - ins);
      }
    }
  }

  /** Two lists with unique slots, sharing no slot, give a list with unique slots. */
  lemma UniqueSlotsAppend(a: seq<Child>, b: seq<Child>)
    requires UniqueSlots(a) && UniqueSlots(b)
    requires forall c, d :: c in a && d in b && c.Slot? && d.Slot? ==> c.Key() != d.Key()
    ensures UniqueSlots(a + b)
  {
    var s := a + b;
    forall i, j | 0 <= i < j < |s| && s[i].Slot? && s[j].Slot? ensures s[i].Key() != s[j].Key() {
      if j < |a| {
        assert s[i] == a[i] && s[j] == a[j];
      } else if i < |a| {
        assert s[i] in a && s[j] in b;
      } else {
        assert s[i] == b[i - |a|] && s[j] == b[j - |a|];
      }
    }
  }

  /** Every handle of `es` names a node widget of `cs`. */
  predicate NamesNodes(cs: seq<Child>, es: seq<Entity>) {
    forall i :: 0 <= i < |es| ==> NodeAt(cs, es[i]).Some?
  }

  /** The node widgets the handles `es` name in `cs`, in order (a handle naming no node
      widget contributes none). */
  function NamedNodes(cs: seq<Child>, es: seq<Entity>): seq<Child> {
    if es == [] then []
    else
      var front := NamedNodes(cs, es[..|es| - 1]);
      match NodeAt(cs, es[|es| - 1])
      case None => front
      case Some(w) => front + [w]
  }

  /** The slot rows of the node widgets `ws`, one after the other, numbered on from
      `first`. */
  function SlotRun(ws: seq<Child>, first: Entity): seq<Child> {
    if ws == [] then []
    else
      var front := SlotRun(ws[..|ws| - 1], first);
      front + RowOf(ws[|ws| - 1], first + |front|)
  }

  /** The slot widgets of node widget `w` numbered from `first`, built one slot at a
      time as the loop of `populate_node_slots` appends them: its inputs, then its
      outputs. `RowOfSlots` shows this is `SlotsOf`. */
  function RowOf(w: Child, first: Entity): seq<Child> {
    if w.Node? then
      Row(w.nodeId, Input, w.slotCountInput, w.margin, first) +
      Row(w.nodeId, Output, w.slotCountOutput, w.margin, first + w.slotCountInput)
    else []
  }

  /** The first `count` slots of one side, numbered from `first`, one at a time. */
  function Row(id: NodeId, side: Side, count: nat, nodeMargin: Thickness, first: Entity): seq<Child> {
    if count == 0 then []
    else Row(id, side, count - 1, nodeMargin, first) + [Slot(first + count - 1, id, side, count - 1, PositionSlot(side, count - 1, nodeMargin), true)]
  }

  /** Built one slot at a time, a side's row is the one `SlotRow` describes. */
  lemma {:induction false} RowIsSlotRow(id: NodeId, side: Side, count: nat, nodeMargin: Thickness, first: Entity)
    ensures Row(id, side, count, nodeMargin, first) == SlotRow(id, side, count, nodeMargin, first)
  {
    if count > 0 {
      RowIsSlotRow(id, side, count - 1, nodeMargin, first);
    }
  }

  /** Built one slot at a time, a node's row is the one `SlotsOf` describes. */
  lemma RowOfSlots(w: Child, first: Entity)
    requires w.Node?
    ensures RowOf(w, first) == SlotsOf(w, first)
  {
    RowIsSlotRow(w.nodeId, Input, w.slotCountInput, w.margin, first);
    RowIsSlotRow(w.nodeId, Output, w.slotCountOutput, w.margin, first + w.slotCountInput);
  }

  /** The run holds slot widgets only. */
  lemma {:induction false} SlotRunSlots(ws: seq<Child>, first: Entity)
    ensures forall c :: c in SlotRun(ws, first) ==> c.Slot?
  {
    if ws != [] {
      SlotRunSlots(ws[..|ws| - 1], first);
      var w := ws[|ws| - 1];
      if w.Node? {
        var front := SlotRun(ws[..|ws| - 1], first);
        RowOfSlots(w, first + |front|);
      }
    }
  }

  /** `populate_slots`: `populate_node_slots` for each handle in turn, the slots
      numbered on from the scene's next free handle. */
  function PopulatedSlots(sc: Scene, es: seq<Entity>): (r: Outcome)
    ensures r.Edited? ==> r.scene.graph == sc.graph && r.scene.locations == sc.locations
    ensures r.Edited? ==> |sc.children| <= |r.scene.children| && r.scene.children[..|sc.children|] == sc.children
  {
    if es == [] then Edited(sc)
    else
      match PopulatedSlots(sc, es[..|es| - 1])
      case Failed(f) => Failed(f)
      case Edited(s) =>
        match NodeAt(s.children, es[|es| - 1])
        case None => Failed(MissingWidget)
        case Some(w) =>
          Edited(s.(children := s.children + SlotsOf(w, s.next), next := s.next + w.slotCountInput + w.slotCountOutput))
  }

  /** `populate_slots` succeeds exactly when every handle names a node widget, and then
      appends the slot rows of those nodes, in order, after the unchanged children. */
  lemma {:induction false} PopulatedSlotsAppend(sc: Scene, es: seq<Entity>)
    ensures var r := PopulatedSlots(sc, es);
            (r.Edited? <==> NamesNodes(sc.children, es)) &&
            (r.Failed? ==> r.fault == MissingWidget) &&
            (r.Edited? ==> var run := SlotRun(NamedNodes(sc.children, es), sc.next);
                           r.scene.children == sc.children + run && r.scene.next == sc.next + |run|)
  {
    if es != [] {
      PopulatedSlotsAppend(sc, es[..|es| - 1]);
      PopulatedSlotsStep(sc, es);
    }
    assert AppendsRun(sc, es, PopulatedSlots(sc, es));
  }

  /** What `PopulatedSlotsAppend` states of `populate_slots` on `es` with outcome `r`. */
  predicate AppendsRun(sc: Scene, es: seq<Entity>, r: Outcome) {
    (r.Edited? <==> NamesNodes(sc.children, es)) &&
    (r.Failed? ==> r.fault == MissingWidget) &&
    (r.Edited? ==> var run := SlotRun(NamedNodes(sc.children, es), sc.next);
                   r.scene.children == sc.children + run && r.scene.next == sc.next + |run|)
  }

  /** One handle more: the outcome for `es` from the outcome for all but its last. */
  lemma PopulatedSlotsStep(sc: Scene, es: seq<Entity>)
    requires es != []
    requires AppendsRun(sc, es[..|es| - 1], PopulatedSlots(sc, es[..|es| - 1]))
    ensures AppendsRun(sc, es, PopulatedSlots(sc, es))
  {
    var front, last := es[..|es| - 1], es[|es| - 1];
    var o := PopulatedSlots(sc, front);
    NamesNodesSnoc(sc.children, es);
    if o.Edited? {
      var ws := NamedNodes(sc.children, front);
      SlotRunSlots(ws, sc.next);
      NodeAtPastSlots(sc.children, SlotRun(ws, sc.next), last);
      var w := NodeAt(sc.children, last);
      if w.Some? {
        NamedNodesSnoc(sc.children, es, w.value);
        AppendRow(sc, ws, w.value, o.scene);
      }
    }
  }

  /** A handle naming node widget `w` adds `w` to the named nodes. */
  lemma NamedNodesSnoc(cs: seq<Child>, es: seq<Entity>, w: Child)
    requires es != [] && NodeAt(cs, es[|es| - 1]) == Some(w)
    ensures NamedNodes(cs, es) == NamedNodes(cs, es[..|es| - 1]) + [w]
  {
  }

  /** A scene holding the run of `ws` after the children of `sc`, given the slots of
      one more node widget `w`, holds the run of `ws + [w]`. */
  lemma AppendRow(sc: Scene, ws: seq<Child>, w: Child, s: Scene)
    requires w.Node?
    requires s.children == sc.children + SlotRun(ws, sc.next)
    requires s.next == sc.next + |SlotRun(ws, sc.next)|
    ensures s.children + SlotsOf(w, s.next) == sc.children + SlotRun(ws + [w], sc.next)
    ensures s.next + w.slotCountInput + w.slotCountOutput == sc.next + |SlotRun(ws + [w], sc.next)|
  {
    var row := RowOf(w, s.next);
    assert s.children + row == sc.children + SlotRun(ws + [w], sc.next)
        && s.next + |row| == sc.next + |SlotRun(ws + [w], sc.next)| by {
      RunGrows(sc.children, ws, sc.next, w);
    }
    RowOfSlots(w, s.next);
  }

  /** Appending the row of one more node widget to the children built for the others
      gives the children built for all of them. */
  lemma RunGrows(cs: seq<Child>, ws: seq<Child>, first: Entity, w: Child)
    ensures var front := SlotRun(ws, first);
            var row := RowOf(w, first + |front|);
            (cs + front) + row == cs + SlotRun(ws + [w], first) &&
            |front| + |row| == |SlotRun(ws + [w], first)|
  {
    var front := SlotRun(ws, first);
    assert (ws + [w])[..|ws|] == ws;
    SlotRunSnoc(ws + [w], first);
    assert (cs + front) + RowOf(w, first + |front|) == cs + (front + RowOf(w, first + |front|));
  }

  /** The run of slot rows grows by the row of its last node widget. */
  lemma SlotRunSnoc(ws: seq<Child>, first: Entity)
    requires ws != []
    ensures var front := SlotRun(ws[..|ws| - 1], first);
            SlotRun(ws, first) == front + RowOf(ws[|ws| - 1], first + |front|)
  {
  }

  /** A list of handles names only node widgets exactly when all but its last one do
      and its last one does. */
  lemma NamesNodesSnoc(cs: seq<Child>, es: seq<Entity>)
    requires es != []
    ensures NamesNodes(cs, es) <==> NamesNodes(cs, es[..|es| - 1]) && NodeAt(cs, es[|es| - 1]).Some?
  {
    assert forall i :: 0 <= i < |es| - 1 ==> es[..|es| - 1][i] == es[i];
  }

  /** Slot widgets appended after a list do not change which node widget a handle names. */
  lemma {:induction false} NodeAtPastSlots(cs: seq<Child>, more: seq<Child>, e: Entity)
    requires forall c :: c in more ==> c.Slot?
    ensures NodeAt(cs + more, e) == NodeAt(cs, e)
  {
    if cs == [] {
      assert cs + more == more;
    } else {
      assert (cs + more)[1..] == cs[1..] + more;
      NodeAtPastSlots(cs[1..], more, e);
    }
  }

  /** `populate_workspace` as written: after the nodes have been populated, each with
      its slots, `populate_slots` appends the slots of every node widget a second time;
      then the edges are created. */
  function RepopulatedAsWritten(g: Graph, locs: seq<Location>, next: Entity): Outcome {
    match PopulatedNodes(Scene([], next, g, locs), NodeIds(g))
    case Failed(f) => Failed(f)
    case Edited(s) =>
      match PopulatedSlots(s, Select(s.children, OfKind(NodeWidget)))
      case Failed(f) => Failed(f)
      case Edited(s2) => EdgesCreated(s2, g.edges)
  }

  /** Loading a graph of one `Mix` node with one input and one output, and no recorded
      location, gives its input slot two widgets (handles 2 and 4) and its output slot
      two (handles 3 and 5). */
  lemma RepopulatedAsWrittenDuplicates()
    ensures var g := Graph([CoreNode(0, Mix, 1, 1)], []);
            RepopulatedAsWritten(g, [], 1).Edited? &&
            !UniqueSlots(RepopulatedAsWritten(g, [], 1).scene.children)
  {
    var n := CoreNode(0, Mix, 1, 1);
    var w := NodeWidgetFor(n, ORIGIN, 1);
    var slots, again := SlotsOf(w, 2), SlotsOf(w, 4);
    var s := Scene([w] + slots, 4, Graph([n], []), [Location(0, ORIGIN)]);
    MixNodePopulated();
    MixNodeSlotsAgain();
    var cs := s.children + again;
    RepopulatedAsWrittenUnconnected(Graph([n], []), [], 1, s, s.(children := cs, next := 6));
    assert cs[1] == slots[0] && cs[3] == again[0];
    SlotTwice(cs, 1, 3);
  }

  /** As written, a load gives a slot two widgets whenever the graph's first node shows
      a slot: `populate_node` creates the node's slots, and `populate_slots` creates
      them again. */
  lemma RepopulatedAsWrittenDoubles(g: Graph, locs: seq<Location>, next: Entity)
    requires g.nodes != [] && InputSlotCount(g.nodes[0]) + OutputSlotCount(g.nodes[0]) > 0
    requires RepopulatedAsWritten(g, locs, next).Edited?
    ensures !UniqueSlots(RepopulatedAsWritten(g, locs, next).scene.children)
  {
    var s, es := AsWrittenLayout(g, locs, next);
    var w := FirstNodeLaidOut(g, locs, next);
    SelectFirst(s.children, OfKind(NodeWidget));
    assert NodeAt(s.children, next) == Some(w);
    NamedNodesFirst(s.children, es, w);
    var ws := NamedNodes(s.children, es);
    RunStartsWith(ws, s.next);
    SameFirstSlot(w, next + 1, s.next);
    var final := RepopulatedAsWritten(g, locs, next).scene.children;
    var run := SlotRun(ws, s.next);
    assert final[1] == (s.children + run)[1] == SlotsOf(w, next + 1)[0];
    assert final[|s.children|] == (s.children + run)[|s.children|] == run[0] == SlotsOf(w, s.next)[0];
    SlotTwice(final, 1, |s.children|);
  }

  /** The as-written load's widgets: the populated nodes with their slots, then the
      slot rows `populate_slots` appends, then the edges. */
  lemma AsWrittenLayout(g: Graph, locs: seq<Location>, next: Entity) returns (s: Scene, es: seq<Entity>)
    requires RepopulatedAsWritten(g, locs, next).Edited?
    ensures PopulatedNodes(Scene([], next, g, locs), NodeIds(g)) == Edited(s)
    ensures es == Select(s.children, OfKind(NodeWidget))
    ensures NamesNodes(s.children, es)
    ensures var final := RepopulatedAsWritten(g, locs, next).scene.children;
            var run := SlotRun(NamedNodes(s.children, es), s.next);
            |s.children| + |run| <= |final| && final[..|s.children| + |run|] == s.children + run
  {
    s := PopulatedNodes(Scene([], next, g, locs), NodeIds(g)).scene;
    es := Select(s.children, OfKind(NodeWidget));
    PopulatedSlotsAppend(s, es);
    var s2 := PopulatedSlots(s, es).scene;
    var final := s2.children + NewEdges(g.edges, s2.locations, s2.next);
    assert RepopulatedAsWritten(g, locs, next).scene.children == final;
    assert final[..|s2.children|] == s2.children;
  }

  /** The first handle of a selection is the first child's, when that child matches. */
  lemma SelectFirst(cs: seq<Child>, q: Query)
    requires cs != [] && Matches(cs[0], q)
    ensures Select(cs, q) != [] && Select(cs, q)[0] == cs[0].entity
  {
    assert cs == [cs[0]] + cs[1..];
    SelectConcat([cs[0]], cs[1..], q);
    assert [cs[0]][..0] == [];
  }

  /** The first named node widget is the one the first handle names. */
  lemma {:induction false} NamedNodesFirst(cs: seq<Child>, es: seq<Entity>, w: Child)
    requires es != [] && NodeAt(cs, es[0]) == Some(w)
    ensures NamedNodes(cs, es) != [] && NamedNodes(cs, es)[0] == w
  {
    var front := es[..|es| - 1];
    if front == [] {
      assert es == [es[0]];
      assert NamedNodes(cs, front) == [];
    } else {
      assert front[0] == es[0];
      NamedNodesFirst(cs, front, w);
    }
  }

  /** The run of slot rows begins with the row of its first node widget. */
  lemma RunStartsWith(ws: seq<Child>, first: Entity)
    requires ws != [] && ws[0].Node?
    ensures var run, row := SlotRun(ws, first), SlotsOf(ws[0], first);
            |row| <= |run| && run[..|row|] == row
  {
    SlotRunPrefix(ws, 1, first);
    SlotRunSnoc(ws[..1], first);
    RowOfSlots(ws[0], first);
  }

  /** The first widgets a load creates: the first node's widget, handle `next`, then
      its slots from `next + 1`. */
  lemma FirstNodeLaidOut(g: Graph, locs: seq<Location>, next: Entity) returns (w: Child)
    requires g.nodes != [] && InputSlotCount(g.nodes[0]) + OutputSlotCount(g.nodes[0]) > 0
    requires PopulatedNodes(Scene([], next, g, locs), NodeIds(g)).Edited?
    ensures w.Node? && w.entity == next && w.slotCountInput + w.slotCountOutput > 0
    ensures var cs := PopulatedNodes(Scene([], next, g, locs), NodeIds(g)).scene.children;
            |cs| > 1 && cs[0] == w && cs[1] == SlotsOf(w, next + 1)[0]
  {
    var sc := Scene([], next, g, locs);
    var ids := NodeIds(g);
    var n0 := g.nodes[0];
    PopulatedNodesPrefix(sc, ids, 1);
    assert ids[..1] == [n0.id];
    w := NodeWidgetFor(n0, TryGetLocation(locs, n0.id).GetOr(ORIGIN), next);
    FirstPopulated(sc, n0);
  }

  /** Populating one node, the graph's first, on an empty list: its widget, then its
      first slot. */
  lemma FirstPopulated(sc: Scene, n0: CoreNode)
    requires sc.children == [] && sc.graph.nodes != [] && sc.graph.nodes[0] == n0
    requires InputSlotCount(n0) + OutputSlotCount(n0) > 0
    ensures var w := NodeWidgetFor(n0, TryGetLocation(sc.locations, n0.id).GetOr(ORIGIN), sc.next);
            var r := PopulatedNodes(sc, [n0.id]);
            r.Edited? && |r.scene.children| > 1 &&
            r.scene.children[0] == w && r.scene.children[1] == SlotsOf(w, sc.next + 1)[0]
  {
    PopulatedOne(sc, [n0.id]);
    assert NodeWithId(sc.graph.nodes, n0.id) == Some(n0);
    PopulatedNodeWidget(sc, n0.id, n0);
    var w := NodeWidgetFor(n0, TryGetLocation(sc.locations, n0.id).GetOr(ORIGIN), sc.next);
    var r := PopulatedNode(sc, n0.id).scene;
    assert r.children == sc.children + [w] + SlotsOf(w, sc.next + 1);
  }

  lemma PopulatedOne(sc: Scene, ids: seq<NodeId>)
    requires |ids| == 1
    ensures PopulatedNodes(sc, ids) == PopulatedNode(sc, ids[0])
  {
    assert ids[..0] == [];
  }

  /** A node widget's slot rows, wherever they are numbered from, begin with the same slot. */
  lemma SameFirstSlot(w: Child, a: Entity, b: Entity)
    requires w.Node? && w.slotCountInput + w.slotCountOutput > 0
    ensures SlotsOf(w, a)[0].Slot? && SlotsOf(w, b)[0].Slot? && SlotsOf(w, a)[0].Key() == SlotsOf(w, b)[0].Key()
  {
    if w.slotCountInput == 0 {
      assert SlotsOf(w, a)[w.slotCountInput + 0].Key() == SlotsOf(w, b)[w.slotCountInput + 0].Key();
    }
  }

  /** `populate_node` only appends widgets. */
  lemma PopulatedNodeGrows(sc: Scene, id: NodeId)
    ensures var r := PopulatedNode(sc, id);
            r.Edited? ==> |sc.children| < |r.scene.children| && r.scene.children[..|sc.children|] == sc.children
  {
  }

  /** Populating a prefix of the ids builds a prefix of the widgets. */
  lemma {:induction false} PopulatedNodesPrefix(sc: Scene, ids: seq<NodeId>, j: nat)
    requires j <= |ids| && PopulatedNodes(sc, ids).Edited?
    ensures PopulatedNodes(sc, ids[..j]).Edited?
    ensures var a, b := PopulatedNodes(sc, ids[..j]).scene.children, PopulatedNodes(sc, ids).scene.children;
            |a| <= |b| && b[..|a|] == a
  {
    if j == |ids| {
      assert ids[..j] == ids;
    } else {
      var front := ids[..|ids| - 1];
      assert front[..j] == ids[..j];
      PopulatedNodesPrefix(sc, front, j);
      PopulatedNodeGrows(PopulatedNodes(sc, front).scene, ids[|ids| - 1]);
    }
  }

  /** The slot rows of a prefix of the node widgets are a prefix of the run. */
  lemma {:induction false} SlotRunPrefix(ws: seq<Child>, j: nat, first: Entity)
    requires j <= |ws|
    ensures var a, b := SlotRun(ws[..j], first), SlotRun(ws, first);
            |a| <= |b| && b[..|a|] == a
  {
    if j == |ws| {
      assert ws[..j] == ws;
    } else {
      var front := ws[..|ws| - 1];
      assert front[..j] == ws[..j];
      SlotRunPrefix(front, j, first);
    }
  }

  /** Without connections, the as-written load ends with `populate_slots`. */
  lemma RepopulatedAsWrittenUnconnected(g: Graph, locs: seq<Location>, next: Entity, s: Scene, s2: Scene)
    requires g.edges == []
    requires PopulatedNodes(Scene([], next, g, locs), NodeIds(g)) == Edited(s)
    requires PopulatedSlots(s, Select(s.children, OfKind(NodeWidget))) == Edited(s2)
    ensures RepopulatedAsWritten(g, locs, next) == Edited(s2)
  {
    var edges := NewEdges(g.edges, s2.locations, s2.next);
    assert edges == [];
    assert s2.(children := s2.children + edges, next := s2.next + |g.edges|) == s2;
  }

  /** Two slot widgets for one slot break `UniqueSlots`. */
  lemma SlotTwice(cs: seq<Child>, i: nat, j: nat)
    requires i < j < |cs| && cs[i].Slot? && cs[j].Slot? && cs[i].Key() == cs[j].Key()
    ensures !UniqueSlots(cs)
  {
  }

  /** The first half of the load of a lone `Mix` node: the node widget at the origin,
      handle 1, then its two slots. */
  lemma MixNodePopulated()
    ensures var n := CoreNode(0, Mix, 1, 1);
            var w := NodeWidgetFor(n, ORIGIN, 1);
            PopulatedNodes(Scene([], 1, Graph([n], []), []), NodeIds(Graph([n], [])))
              == Edited(Scene([w] + SlotsOf(w, 2), 4, Graph([n], []), [Location(0, ORIGIN)]))
  {
    var n := CoreNode(0, Mix, 1, 1);
    var sc := Scene([], 1, Graph([n], []), []);
    assert NodeIds(sc.graph) == [0];
    assert [0][..0] == [];
    assert NodeWithId(sc.graph.nodes, 0) == Some(n);
    PopulatedNodeWidget(sc, 0, n);
  }

  /** `populate_slots` on that list finds the one node widget and appends its two slots
      again, as handles 4 and 5. */
  lemma MixNodeSlotsAgain()
    ensures var n := CoreNode(0, Mix, 1, 1);
            var w := NodeWidgetFor(n, ORIGIN, 1);
            var s := Scene([w] + SlotsOf(w, 2), 4, Graph([n], []), [Location(0, ORIGIN)]);
            PopulatedSlots(s, Select(s.children, OfKind(NodeWidget)))
              == Edited(s.(children := s.children + SlotsOf(w, 4), next := 6))
  {
    var n := CoreNode(0, Mix, 1, 1);
    var w := NodeWidgetFor(n, ORIGIN, 1);
    var slots := SlotsOf(w, 2);
    var s := Scene([w] + slots, 4, Graph([n], []), [Location(0, ORIGIN)]);
    assert Select(s.children, OfKind(NodeWidget)) == [1] by {
      SelectConcat([w], slots, OfKind(NodeWidget));
      SelectNothing(slots, OfKind(NodeWidget));
      assert [w][..0] == [];
    }
    assert [1][..0] == [];
    assert NodeAt(s.children, 1) == Some(w);
  }

  /** `populate_workspace` as intended, on a cleared child list: `populate_node` for each
      node of the graph, then `create_edge` for each connection. */
  method PopulateWorkspace(g: Graph, locs: seq<Location>, next: Entity) returns (st: Status, r: Scene)
    requires 0 < next
    ensures var o := Repopulated(g, locs, next);
            (st.Done? <==> o.Edited?) && (st.Done? ==> r == o.scene) && (st.Abort? ==> st.fault == o.fault)
    ensures st.Done? ==> WellFormed(r.children, r.next, None)
  {
    var ids := NodeIds(g);
    var sc := Scene([], next, g, locs);
    r := sc;
    assert ids[..0] == [];
    for i := 0 to |ids|
      invariant PopulatedNodes(sc, ids[..i]) == Edited(r)
      invariant r.graph == g
      invariant WellFormed(r.children, r.next, None)
    {
      assert ids[..i + 1][..i] == ids[..i];
      assert g.nodes[i] in g.nodes;
      WellFormedPopulatedNode(r, ids[i], None);
      st, r := PopulateNode(r, ids[i]);
    }
    assert ids[..|ids|] == ids;
    var cs, next2;
    st, cs, next2 := CreateEdges(r.children, r.next, g.edges, r.locations);
    if st.Done? {
      WellFormedRun(r.children, NewEdges(g.edges, r.locations, r.next), r.next, None);
      r := r.(children := cs, next := next2);
    }
  }
}
