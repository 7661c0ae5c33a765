/** The values the node-container controller works with besides its child list (the
    pending actions, drag/drop records, the outcome of a tick) and the pure functions that
    specify its steps (src/node_container.rs). */
module ContainerSpec {
  import opened Wrappers
  import opened Geometry
  import opened CoreGraph
  import opened Visual
  import opened Layout

  datatype MouseButton = Left | Right | Middle

  /** A pointer event: where it happened and which button. */
  datatype Mouse = Mouse(position: Point, button: MouseButton)

  /** The one pending pointer or keyboard action the workspace hands the container. */
  datatype Action = Press(mouse: Mouse) | Release(mouse: Mouse) | Move(point: Point) | Delete

  /** File actions of the main window; `MenuNode` is the workspace's own. */
  datatype ActionMain = LoadGraph(path: string) | SaveGraph(path: string) | MenuNode

  /** `DragDropEntity`: a widget handle with the kind it had when it was recorded. */
  datatype DragDrop = DragDrop(kind: WidgetType, entity: Entity)

  /** `NodeGraphSpatial`: what a graph file holds. */
  datatype Spatial = Spatial(locations: seq<Location>, graph: Graph)

  /** Where the source panics (`unwrap`, `expect`, `panic!`, a property read from a widget
      that does not have it), the model stops the tick with the reason. */
  datatype Fault =
    | MissingWidget     // a handle names no widget of the expected kind
    | MissingNode       // no node widget or graph node with the id
    | MissingLocation   // `create_edge`: a node of the connection has no location
    | DroppedOnNode
    | DroppedOnEdge
    | UnreadableFile    // `load_graph`: the file does not open or parse
    | NoPropertyMenu    // `open_menu_property`: `todo!()` for a node that is neither Mix nor Image

  datatype Status = Done | Abort(fault: Fault)

  /** The GUI's read of a graph file: the stored spatial state, or nothing. */
  type FileReader = string -> Option<Spatial>

  /** The library's `add_node`: the node it builds for a type, numbered for the graph. */
  type NodeBuilder = (Graph, NodeType) -> CoreNode

  /** Every node highlighted as selected is the recorded selection. */
  predicate Highlighted(cs: seq<Child>, selected: Option<DragDrop>) {
    forall c :: c in cs && c.Node? && c.selected ==> selected == Some(DragDrop(NodeWidget, c.entity))
  }

  lemma HighlightedApply(cs: seq<Child>, u: Update, done: set<Entity>, sel: Option<DragDrop>)
    requires Highlighted(cs, sel) && !u.SetSelected?
    ensures Highlighted(ApplyTo(cs, u, done), sel) && Highlighted(ApplyAll(cs, u), sel)
  {
    forall c | c in ApplyTo(cs, u, done) && c.Node? && c.selected ensures sel == Some(DragDrop(NodeWidget, c.entity)) {
      var i :| 0 <= i < |cs| && ApplyTo(cs, u, done)[i] == c;
      assert cs[i] in cs;
    }
    forall c | c in ApplyAll(cs, u) && c.Node? && c.selected ensures sel == Some(DragDrop(NodeWidget, c.entity)) {
      var i :| 0 <= i < |cs| && ApplyAll(cs, u)[i] == c;
      assert cs[i] in cs;
    }
  }

  /** The controller's child list is in order: handles are real widget handles, unique
      and below the next free one, and only the recorded selection is highlighted. */
  predicate WellFormed(cs: seq<Child>, next: Entity, sel: Option<DragDrop>) {
    0 < next && Distinct(cs) && HandlesBelow(cs, next) && Highlighted(cs, sel)
  }

  /** Property writes other than the selection flag keep the list in order. */
  lemma WellFormedApply(cs: seq<Child>, u: Update, done: set<Entity>, next: Entity, sel: Option<DragDrop>)
    requires WellFormed(cs, next, sel) && !u.SetSelected?
    ensures WellFormed(ApplyTo(cs, u, done), next, sel) && WellFormed(ApplyAll(cs, u), next, sel)
  {
    ApplyKeepsHandles(cs, u, done, next);
    ApplyAllKeepsHandles(cs, u, next);
    HighlightedApply(cs, u, done, sel);
  }

  /** Removing children keeps the list in order. */
  lemma WellFormedWithout(cs: seq<Child>, q: Query, next: Entity, sel: Option<DragDrop>)
    requires WellFormed(cs, next, sel)
    ensures WellFormed(Without(cs, q), next, sel)
  {
    DistinctWithout(cs, q);
  }

  /** Appending unselected widgets numbered from the next free handle on keeps the list
      in order, with the next free handle moved past them. */
  lemma WellFormedRun(cs: seq<Child>, more: seq<Child>, next: Entity, sel: Option<DragDrop>)
    requires WellFormed(cs, next, sel)
    requires forall i :: 0 <= i < |more| ==> more[i].entity == next + i && !(more[i].Node? && more[i].selected)
    ensures WellFormed(cs + more, next + |more|, sel)
  {
    FreshRun(cs, more, next);
  }

  /** The key of the slot widget a handle names, if it names one. */
  function SlotKeyOf(cs: seq<Child>, e: Entity): (r: Option<SlotKey>)
    ensures r.Some? <==> Find(cs, e).Some? && Find(cs, e).value.Slot?
    ensures r.Some? ==> r.value == Find(cs, e).value.Key()
  {
    match Find(cs, e)
    case Some(c) => if c.Slot? then Some(c.Key()) else None
    case None => None
  }

  /** The node widget a handle names, if it names one. */
  function NodeAt(cs: seq<Child>, e: Entity): (r: Option<Child>)
    ensures r.Some? <==> Find(cs, e).Some? && Find(cs, e).value.Node?
    ensures r.Some? ==> r == Find(cs, e) && r.value.Node?
  {
    match Find(cs, e)
    case Some(c) => if c.Node? then Some(c) else None
    case None => None
  }

  /** The edge widget a handle names, if it names one. */
  function EdgeAt(cs: seq<Child>, e: Entity): (r: Option<Child>)
    ensures r.Some? <==> Find(cs, e).Some? && Find(cs, e).value.Edge?
    ensures r.Some? ==> r == Find(cs, e) && r.value.Edge?
  {
    match Find(cs, e)
    case Some(c) => if c.Edge? then Some(c) else None
    case None => None
  }

  /** In a list where handles are distinct, each lookup by a widget's handle answers
      with that widget: its slot key if it is a slot, itself if it is a node or an edge,
      and nothing of the other kinds. */
  lemma NamedChild(cs: seq<Child>, c: Child)
    requires Distinct(cs) && c in cs
    ensures SlotKeyOf(cs, c.entity).Some? <==> c.Slot?
    ensures c.Slot? ==> SlotKeyOf(cs, c.entity) == Some(c.Key())
    ensures NodeAt(cs, c.entity) == (if c.Node? then Some(c) else None)
    ensures EdgeAt(cs, c.entity) == (if c.Edge? then Some(c) else None)
  {
    FindDistinct(cs, c);
  }

  predicate AllEdges(cs: seq<Child>, es: seq<Entity>) {
    forall i :: 0 <= i < |es| ==> EdgeAt(cs, es[i]).Some?
  }

  /** `get_dragged_edges`: the edges a drag carries. For a slot being dragged, the edges
      attached to it; for an edge drag, the recorded dragged edges; otherwise none. The
      result is None where the source panics: a slot-kind record whose handle is not a
      slot widget. */
  function HeldEdges(cs: seq<Child>, dragged: Option<DragDrop>, draggedEdges: seq<Entity>): (r: Option<seq<Entity>>)
    ensures dragged.None? ==> r == Some([])
    ensures dragged.Some? && dragged.value.kind == NodeWidget ==> r == Some([])
    ensures dragged.Some? && dragged.value.kind == EdgeWidget ==> r == Some(draggedEdges)
    ensures dragged.Some? && dragged.value.kind == SlotWidget ==>
              (r.Some? <==> SlotKeyOf(cs, dragged.value.entity).Some?) &&
              (r.Some? ==> r.value == Select(cs, InSlot(SlotKeyOf(cs, dragged.value.entity).value)))
  {
    match dragged
    case None => Some([])
    case Some(d) =>
      match d.kind
      case NodeWidget => Some([])
      case EdgeWidget => Some(draggedEdges)
      case SlotWidget =>
        match SlotKeyOf(cs, d.entity)
        case Some(k) => Some(Select(cs, InSlot(k)))
        case None => None
  }

  /** A drag of slot widget `s` carries exactly the edge widgets attached to that slot. */
  lemma HeldBySlot(cs: seq<Child>, s: Child, draggedEdges: seq<Entity>, e: Entity)
    requires Distinct(cs) && s in cs && s.Slot?
    ensures HeldEdges(cs, Some(DragDrop(SlotWidget, s.entity)), draggedEdges).Some?
    ensures e in HeldEdges(cs, Some(DragDrop(SlotWidget, s.entity)), draggedEdges).value
            <==> exists c :: c in cs && c.entity == e && Attached(c, s.Key())
  {
    FindDistinct(cs, s);
    var held := Select(cs, InSlot(s.Key()));
    if e in held {
      var i :| 0 <= i < |cs| && cs[i].entity == e && Matches(cs[i], InSlot(s.Key()));
      assert cs[i] in cs;
    }
    if exists c :: c in cs && c.entity == e && Attached(c, s.Key()) {
      var c :| c in cs && c.entity == e && Attached(c, s.Key());
      var i :| 0 <= i < |cs| && cs[i] == c;
      assert Matches(cs[i], InSlot(s.Key()));
    }
  }

  /** The dragged edges never name a widget twice. */
  lemma HeldNoDuplicates(cs: seq<Child>, dragged: Option<DragDrop>, draggedEdges: seq<Entity>)
    requires Distinct(cs) && NoDuplicates(draggedEdges)
    ensures HeldEdges(cs, dragged, draggedEdges).Some? ==> NoDuplicates(HeldEdges(cs, dragged, draggedEdges).value)
  {
    if dragged.Some? && dragged.value.kind == SlotWidget && SlotKeyOf(cs, dragged.value.entity).Some? {
      SelectNoDuplicates(cs, InSlot(SlotKeyOf(cs, dragged.value.entity).value));
    }
  }

  /** Removing listed widgets one handle at a time: the next widget is still found as it
      was, and removing it extends the removal by one handle. */
  lemma RemovalStep(c0: seq<Child>, es: seq<Entity>, i: nat)
    requires Distinct(c0) && NoDuplicates(es) && i < |es|
    ensures Find(Without(c0, ByHandle(es[..i])), es[i]) == Find(c0, es[i])
    ensures EdgeAt(Without(c0, ByHandle(es[..i])), es[i]) == EdgeAt(c0, es[i])
    ensures Without(Without(c0, ByHandle(es[..i])), HasEntity(es[i])) == Without(c0, ByHandle(es[..i + 1]))
  {
    if Find(c0, es[i]).Some? {
      ByHandleMatch(es[..i], Find(c0, es[i]).value);
      assert es[i] !in es[..i];
    }
    FindWithout(c0, ByHandle(es[..i]), es[i]);
    WithoutTwice(c0, ByHandle(es[..i]).queries, HasEntity(es[i]));
    ByHandleStep(es, i);
  }

  /** The connections of one more edge widget. */
  lemma CoresStep(cs: seq<Child>, es: seq<Entity>, i: nat)
    requires i < |es| && AllEdges(cs, es[..i]) && EdgeAt(cs, es[i]).Some?
    ensures AllEdges(cs, es[..i + 1])
    ensures Cores(cs, es[..i + 1]) == Cores(cs, es[..i]) + [CoreOf(EdgeAt(cs, es[i]).value)]
  {
    assert forall j :: 0 <= j < i ==> es[..i + 1][j] == es[..i][j];
  }

  /** Edges found by a slot query are edge widgets. */
  lemma SelectedEdges(cs: seq<Child>, k: SlotKey)
    requires Distinct(cs)
    ensures AllEdges(cs, Select(cs, InSlot(k)))
  {
    var es := Select(cs, InSlot(k));
    forall i | 0 <= i < |es| ensures EdgeAt(cs, es[i]).Some? {
      assert es[i] in es;
      var j :| 0 <= j < |cs| && cs[j].entity == es[i] && Matches(cs[j], InSlot(k));
      FindDistinct(cs, cs[j]);
    }
  }

  /** `create_loose_edge`: an edge with one end anchored at slot `k` and the other, free,
      end at `free`; the free end's node and slot ids keep their default, 0. */
  function LooseEdge(entity: Entity, k: SlotKey, anchor: Point, free: Point): (c: Child)
    ensures c.Edge? && c.entity == entity && Attached(c, k)
    ensures EndPoint(c, k.side) == anchor && EndPoint(c, Opposite(k.side)) == free
  {
    match k.side
    case Input => Edge(entity, 0, k.nodeId, 0, k.slotId, free, anchor)
    case Output => Edge(entity, k.nodeId, 0, k.slotId, 0, anchor, free)
  }

  /** The connection `handle_dropped_entity` asks for when edge widget `c` is dropped on
      slot `k`: from `k` to the slot at the edge's other end. */
  function Join(c: Child, k: SlotKey): (e: CoreEdge)
    requires c.Edge?
    ensures EdgeInSlot(e, k.nodeId, k.side, k.slotId)
  {
    match k.side
    case Input => JoinSlots(k.nodeId, Input, k.slotId, c.outputNode, c.outputSlot)
    case Output => JoinSlots(k.nodeId, Output, k.slotId, c.inputNode, c.inputSlot)
  }

  /** The connection asked for is the one the rebound widget draws. */
  lemma JoinIsRebound(c: Child, k: SlotKey, goal: Point)
    requires c.Edge?
    ensures Apply(c, Rebind(k, goal)).Edge? && CoreOf(Apply(c, Rebind(k, goal))) == Join(c, k)
    ensures Attached(Apply(c, Rebind(k, goal)), k)
  {
  }

  /** The connections asked for, one per dropped edge, in order. */
  function Joins(cs: seq<Child>, es: seq<Entity>, k: SlotKey): (r: seq<CoreEdge>)
    requires AllEdges(cs, es)
    ensures |r| == |es|
    ensures forall e :: e in r ==> EdgeInSlot(e, k.nodeId, k.side, k.slotId)
  {
    seq(|es|, i requires 0 <= i < |es| => Join(EdgeAt(cs, es[i]).value, k))
  }

  /** The connections the edge widgets of `es` draw, in order. */
  function Cores(cs: seq<Child>, es: seq<Entity>): (r: seq<CoreEdge>)
    requires AllEdges(cs, es)
    ensures |r| == |es|
  {
    seq(|es|, i requires 0 <= i < |es| => CoreOf(EdgeAt(cs, es[i]).value))
  }

  /** `refresh_node`'s new margin: the pointer less the grab offset, right and bottom kept. */
  function DraggedMargin(m: Thickness, mouse: Point, offset: Point): (t: Thickness)
    ensures ThicknessToPoint(t) == Minus(mouse, offset)
    ensures Plus(ThicknessToPoint(t), offset) == mouse
    ensures t.right == m.right && t.bottom == m.bottom
  {
    Thickness(mouse.x - offset.x, mouse.y - offset.y, m.right, m.bottom)
  }

  /** `refresh_node` on child list `cs`: node widget `e` is moved to its dragged margin,
      then the edges touching the node and the node's slots are re-anchored. */
  function MoveNode(cs: seq<Child>, e: Entity, mouse: Point, offset: Point): seq<Child> {
    match Find(cs, e)
    case Some(c) =>
      if c.Node? then
        var m := DraggedMargin(c.margin, mouse, offset);
        ApplyAll(ApplyAll(ApplyTo(cs, SetMargin(m), {e}), EdgeEnds(c.nodeId, ThicknessToPoint(m))), SlotMargins(c.nodeId, m))
      else cs
    case None => cs
  }

  /** What a node move does to each child: the node takes its dragged margin; an edge
      whose output is on the node is re-anchored there, otherwise one whose input is on
      it is; each slot of the node sits at `position_slot` of the new margin; every
      other child is unchanged. */
  lemma MoveNodeMeaning(cs: seq<Child>, e: Entity, mouse: Point, offset: Point, i: nat)
    requires Distinct(cs) && i < |cs|
    requires Find(cs, e).Some? && Find(cs, e).value.Node?
    ensures var node := Find(cs, e).value;
            var m := DraggedMargin(node.margin, mouse, offset);
            var p := Minus(mouse, offset);
            var c, d := cs[i], MoveNode(cs, e, mouse, offset)[i];
            |MoveNode(cs, e, mouse, offset)| == |cs| && d.entity == c.entity && d.Kind() == c.Kind() &&
            (c.entity == e ==> d == Apply(node, SetMargin(m))) &&
            (c.Edge? && c.outputNode == node.nodeId ==>
               d == c.(outputPoint := PositionEdge(Output, c.outputSlot, p))) &&
            (c.Edge? && c.outputNode != node.nodeId && c.inputNode == node.nodeId ==>
               d == c.(inputPoint := PositionEdge(Input, c.inputSlot, p))) &&
            (c.Slot? && c.nodeId == node.nodeId ==> d == Slot(c.entity, c.nodeId, c.side, c.slotId, PositionSlot(c.side, c.slotId, m), c.enabled)) &&
            (c.entity != e && !Matches(c, TouchesNode(node.nodeId)) && !Matches(c, SlotOfNode(node.nodeId)) ==> d == c)
  {
    var node := Find(cs, e).value;
    if cs[i].entity == e {
      FindDistinct(cs, cs[i]);
    }
  }

  /** Moving a node keeps handles and kinds, so the list stays well formed. */
  lemma MoveNodeKeepsHandles(cs: seq<Child>, e: Entity, mouse: Point, offset: Point, next: Entity, sel: Option<DragDrop>)
    requires Distinct(cs) && HandlesBelow(cs, next) && Highlighted(cs, sel)
    ensures var r := MoveNode(cs, e, mouse, offset);
            Distinct(r) && HandlesBelow(r, next) && Highlighted(r, sel)
  {
    var r := MoveNode(cs, e, mouse, offset);
    if Find(cs, e).Some? && Find(cs, e).value.Node? {
      forall i | 0 <= i < |cs| ensures r[i].entity == cs[i].entity && (r[i].Node? && r[i].selected ==> cs[i].Node? && cs[i].selected) {
        MoveNodeMeaning(cs, e, mouse, offset, i);
      }
      forall c | c in r ensures 0 < c.entity < next && (c.Node? && c.selected ==> sel == Some(DragDrop(NodeWidget, c.entity))) {
        var i :| 0 <= i < |r| && r[i] == c;
        assert cs[i] in cs;
      }
    }
  }

  /** The query removals `delete_slot` makes for each slot widget of `slots` in turn: the
      edges attached to the slot, then the slot itself. */
  function SlotRemovals(slots: seq<Child>): (qs: seq<Query>)
    requires forall c :: c in slots ==> c.Slot?
    ensures |qs| == 2 * |slots|
  {
    if slots == [] then []
    else
      var front := slots[..|slots| - 1];
      assert forall c :: c in front ==> c in slots;
      SlotRemovals(front) + [InSlot(slots[|slots| - 1].Key()), HasEntity(slots[|slots| - 1].entity)]
  }

  /** Child `c` goes when slot widget `s` is deleted: it is the slot or an edge in it. */
  predicate RemovedWith(c: Child, s: Child)
    requires s.Slot?
  {
    c.entity == s.entity || Attached(c, s.Key())
  }

  /** A child is removed by the slot removals exactly when it goes with one of the slots. */
  lemma {:induction false} SlotRemovalsMatch(slots: seq<Child>, c: Child)
    requires forall s :: s in slots ==> s.Slot?
    ensures Matches(c, AnyOf(SlotRemovals(slots))) <==> exists s :: s in slots && RemovedWith(c, s)
  {
    if slots != [] {
      var front, last := slots[..|slots| - 1], slots[|slots| - 1];
      assert slots == front + [last];
      assert forall s :: s in front ==> s in slots;
      SlotRemovalsMatch(front, c);
      var pair := [InSlot(last.Key()), HasEntity(last.entity)];
      AnyOfAppend(c, SlotRemovals(front), pair);
      assert Matches(c, AnyOf(pair)) <==> RemovedWith(c, last) by {
        if Matches(c, AnyOf(pair)) {
          var i :| 0 <= i < 2 && Matches(c, pair[i]);
        }
        if Attached(c, last.Key()) { assert Matches(c, pair[0]); }
        if c.entity == last.entity { assert Matches(c, pair[1]); }
      }
      if exists s :: s in slots && RemovedWith(c, s) {
        var s :| s in slots && RemovedWith(c, s);
        if s != last { assert s in front; }
      }
    }
  }

  /** `delete_node` on child list `cs` for node widget `e`: each slot of the node goes
      with the edges attached to it, then the node widget. */
  function DeleteNodeChildren(cs: seq<Child>, e: Entity): seq<Child>
    requires Find(cs, e).Some? && Find(cs, e).value.Node?
  {
    var slots := Keep(cs, SlotOfNode(Find(cs, e).value.nodeId));
    Without(cs, AnyOf(SlotRemovals(slots) + [HasEntity(e)]))
  }

  /** Deleting a node keeps exactly the children that are not the node, not one of its
      slots and not an edge attached to one of its slot widgets. */
  lemma DeleteNodeMeaning(cs: seq<Child>, e: Entity, c: Child)
    requires Distinct(cs)
    requires Find(cs, e).Some? && Find(cs, e).value.Node?
    ensures var id := Find(cs, e).value.nodeId;
            c in DeleteNodeChildren(cs, e) <==>
              c in cs && c.entity != e && !(c.Slot? && c.nodeId == id) &&
              !(exists s :: s in cs && s.Slot? && s.nodeId == id && Attached(c, s.Key()))
  {
    var id := Find(cs, e).value.nodeId;
    var slots := Keep(cs, SlotOfNode(id));
    DeleteNodeQuery(slots, e, c);
    if c in cs {
      SlotsOfNodeRemove(cs, id, c);
    }
  }

  /** A node widget deleted while it, or one of its slot widgets, is held leaves the
      drag on a handle that names no widget: the next margin read of the drag fails. */
  lemma DeletedWidgetGone(cs: seq<Child>, e: Entity, h: Entity)
    requires Distinct(cs) && h != 0
    requires Find(cs, e).Some? && Find(cs, e).value.Node?
    requires Find(cs, h).Some?
    requires h == e || (Find(cs, h).value.Slot? && Find(cs, h).value.nodeId == Find(cs, e).value.nodeId)
    ensures DraggedWidgetGone(DeleteNodeChildren(cs, e), h)
  {
    forall c | c in DeleteNodeChildren(cs, e)
      ensures c.entity != h
    {
      DeleteNodeMeaning(cs, e, c);
      if c.entity == h {
        FindDistinct(cs, c);
      }
    }
  }

  /** The query `delete_node` removes with matches the node widget and whatever goes
      with one of its slots. */
  lemma DeleteNodeQuery(slots: seq<Child>, e: Entity, c: Child)
    requires forall s :: s in slots ==> s.Slot?
    ensures Matches(c, AnyOf(SlotRemovals(slots) + [HasEntity(e)])) <==>
              c.entity == e || exists s :: s in slots && RemovedWith(c, s)
  {
    SlotRemovalsMatch(slots, c);
    AnyOfAppend(c, SlotRemovals(slots), [HasEntity(e)]);
    assert Matches(c, AnyOf([HasEntity(e)])) <==> c.entity == e by {
      if c.entity == e { assert Matches(c, [HasEntity(e)][0]); }
    }
  }

  lemma SlotsOfNodeRemove(cs: seq<Child>, id: NodeId, c: Child)
    requires Distinct(cs) && c in cs
    ensures (exists s :: s in Keep(cs, SlotOfNode(id)) && RemovedWith(c, s)) <==>
            (c.Slot? && c.nodeId == id) || (exists s :: s in cs && s.Slot? && s.nodeId == id && Attached(c, s.Key()))
  {
    var slots := Keep(cs, SlotOfNode(id));
    if exists s :: s in slots && RemovedWith(c, s) {
      var s :| s in slots && RemovedWith(c, s);
      if c.entity == s.entity {
        SameHandle(cs, c, s);
      }
    }
    if c.Slot? && c.nodeId == id {
      assert c in slots && RemovedWith(c, c);
    }
    if exists s :: s in cs && s.Slot? && s.nodeId == id && Attached(c, s.Key()) {
      var s :| s in cs && s.Slot? && s.nodeId == id && Attached(c, s.Key());
      assert s in slots && RemovedWith(c, s);
    }
  }

  /** Every child of a list that names the same widget as `c` is `c`. */
  lemma SameHandle(cs: seq<Child>, c: Child, d: Child)
    requires Distinct(cs) && c in cs && d in cs && c.entity == d.entity
    ensures c == d
  {
  }

  /** The `enabled` flag write of `handle_dragged_entity` (false) and `reset_dragging`
      (true) on the dragged widget, if there is one. */
  function WithEnabled(cs: seq<Child>, dragged: Option<DragDrop>, b: bool): (r: seq<Child>)
    ensures |r| == |cs|
    ensures forall i :: 0 <= i < |cs| ==> r[i].entity == cs[i].entity && r[i].Kind() == cs[i].Kind()
    ensures forall i :: 0 <= i < |cs| && !(cs[i].Edge? && dragged.Some? && cs[i].entity == dragged.value.entity) ==>
              r[i] == if dragged.Some? && cs[i].entity == dragged.value.entity then cs[i].(enabled := b) else cs[i]
    ensures forall i :: 0 <= i < |cs| && cs[i].Edge? ==> r[i] == cs[i]
  {
    if dragged.Some? then ApplyTo(cs, SetEnabled(b), {dragged.value.entity}) else cs
  }

  /** `select_entity`: the previous selection is un-highlighted, then the new one is
      highlighted if it is a node. */
  function Reselected(cs: seq<Child>, previous: Option<DragDrop>, next: Option<DragDrop>): seq<Child> {
    var cleared := if previous.Some? then ApplyTo(cs, SetSelected(false), {previous.value.entity}) else cs;
    if next.Some? && next.value.kind == NodeWidget then ApplyTo(cleared, SetSelected(true), {next.value.entity}) else cleared
  }

  /** The selection `select_entity` records: a node, or nothing. */
  function NewSelection(next: Option<DragDrop>): (r: Option<DragDrop>)
    ensures r.Some? ==> r == next && r.value.kind == NodeWidget
    ensures next.Some? && next.value.kind == NodeWidget ==> r == next
  {
    if next.Some? && next.value.kind == NodeWidget then next else None
  }

  /** After `select_entity`, the only node highlighted is the new selection. */
  lemma ReselectedHighlight(cs: seq<Child>, previous: Option<DragDrop>, next: Option<DragDrop>)
    requires Highlighted(cs, previous)
    ensures Highlighted(Reselected(cs, previous, next), NewSelection(next))
  {
    var cleared := if previous.Some? then ApplyTo(cs, SetSelected(false), {previous.value.entity}) else cs;
    forall c | c in cleared ensures !(c.Node? && c.selected) {
      var i :| 0 <= i < |cleared| && cleared[i] == c;
      assert cs[i] in cs;
    }
    var r := Reselected(cs, previous, next);
    forall c | c in r && c.Node? && c.selected ensures NewSelection(next) == Some(DragDrop(NodeWidget, c.entity)) {
      var i :| 0 <= i < |r| && r[i] == c;
      assert cleared[i] in cleared;
    }
  }

  /** Removing children keeps the highlight invariant. */
  lemma HighlightedWithout(cs: seq<Child>, q: Query, sel: Option<DragDrop>)
    requires Highlighted(cs, sel)
    ensures Highlighted(Without(cs, q), sel)
  {
  }

  /** Once the selected node is deleted, no node is highlighted. */
  lemma DeleteClearsHighlight(cs: seq<Child>, sel: DragDrop)
    requires Distinct(cs) && Highlighted(cs, Some(sel))
    ensures NodeAt(cs, sel.entity).Some? ==> Highlighted(DeleteNodeChildren(cs, sel.entity), None)
    ensures NodeAt(cs, sel.entity).None? ==> Highlighted(cs, None)
  {
    if NodeAt(cs, sel.entity).Some? {
      forall c | c in DeleteNodeChildren(cs, sel.entity) ensures !(c.Node? && c.selected) {
        DeleteNodeMeaning(cs, sel.entity, c);
      }
    } else {
      forall c | c in cs ensures !(c.Node? && c.selected) {
        if c.Node? && c.selected {
          FindDistinct(cs, c);
        }
      }
    }
  }

  /** Input nodes show no input slots, output nodes no output slots; every other node
      shows one slot per unit of the library's capacity on each side. */
  function InputSlotCount(n: CoreNode): (c: nat)
    ensures n.nodeType == InputGray || n.nodeType == InputRgba ==> c == 0
    ensures !(n.nodeType == InputGray || n.nodeType == InputRgba) ==> c == n.inputCapacity
  {
    match n.nodeType
    case InputGray => 0
    case InputRgba => 0
    case _ => n.inputCapacity
  }

  function OutputSlotCount(n: CoreNode): (c: nat)
    ensures n.nodeType == OutputGray || n.nodeType == OutputRgba ==> c == 0
    ensures !(n.nodeType == OutputGray || n.nodeType == OutputRgba) ==> c == n.outputCapacity
  {
    match n.nodeType
    case OutputGray => 0
    case OutputRgba => 0
    case _ => n.outputCapacity
  }

  /** The node widget `populate_node` builds for graph node `n` placed at `p`. */
  function NodeWidgetFor(n: CoreNode, p: Point, entity: Entity): (c: Child)
    ensures c.Node? && c.entity == entity && c.nodeId == n.id && !c.selected
  {
    Node(entity, n.id, Thickness(p.x, p.y, 0.0, 0.0), InputSlotCount(n), OutputSlotCount(n), true, false)
  }

  /** `update_node_to_graph` on widget `e`: every record of its node moves to the
      widget's corner; None where the source panics (no node or slot widget). */
  function MovedRecords(locs: seq<Location>, cs: seq<Child>, e: Entity): (r: Option<seq<Location>>)
    ensures r.Some? <==> Find(cs, e).Some? && !Find(cs, e).value.Edge?
  {
    match Find(cs, e)
    case Some(c) => if c.Edge? then None else Some(MoveLocations(locs, c.nodeId, ThicknessToPoint(c.margin)))
    case None => None
  }

  /** `update_dragged_node_to_graph`: only a dragged node writes its place back. */
  function DroppedRecords(locs: seq<Location>, cs: seq<Child>, dragged: Option<DragDrop>): Option<seq<Location>> {
    if dragged.Some? && dragged.value.kind == NodeWidget then MovedRecords(locs, cs, dragged.value.entity)
    else Some(locs)
  }

  /** The loose edge grabbing slot `k` creates, when the slot's node widget is found. */
  function NewLooseEdge(cs: seq<Child>, k: SlotKey, entity: Entity, free: Point): (r: Option<Child>)
    ensures r.Some? <==> NodeWidgetOf(cs, k.nodeId).Some?
    ensures r.Some? ==> r.value.Edge? && r.value.entity == entity && Attached(r.value, k)
    ensures r.Some? ==>
              EndPoint(r.value, k.side) == PositionEdge(k.side, k.slotId, ThicknessToPoint(NodeWidgetOf(cs, k.nodeId).value.margin)) &&
              EndPoint(r.value, Opposite(k.side)) == free
  {
    match NodeWidgetOf(cs, k.nodeId)
    case Some(n) => Some(LooseEdge(entity, k, PositionEdge(k.side, k.slotId, ThicknessToPoint(n.margin)), free))
    case None => None
  }

  /** The margin `handle_dragged_entity` reads from the dragged widget. The placeholder
      handle 0 an edge drag records is not a node or slot widget of the container, and
      reads the margin the GUI reports for it, `outside`. */
  function DraggedWidgetMargin(cs: seq<Child>, e: Entity, outside: Thickness): Thickness {
    match Find(cs, e)
    case Some(c) => if c.Edge? then outside else c.margin
    case None => outside
  }

  /** The dragged handle names no widget any more: it is not the placeholder handle 0 and
      no child carries it (the widget was deleted while the button was held). The
      unguarded margin read of `handle_dragged_entity` fails on such a handle. */
  predicate DraggedWidgetGone(cs: seq<Child>, e: Entity) {
    e != 0 && Find(cs, e).None?
  }

  /** The pointer has moved further than DRAG_THRESHOLD from where the widget was
      grabbed (its corner plus the grab offset). */
  predicate PastThreshold(cs: seq<Child>, e: Entity, outside: Thickness, mouse: Point, offset: Point) {
    BeyondThreshold(mouse, Plus(ThicknessToPoint(DraggedWidgetMargin(cs, e, outside)), offset))
  }

  /** The outcome of `grab_slot_edge`: the new children, the dragged edges, the side of
      their free ends and the next free handle. */
  datatype Grab = Grab(children: seq<Child>, edges: seq<Entity>, freeSide: Side, next: Entity)

  /** A loose edge drawn out of slot `k`, its free end (the side opposite the slot's)
      under the pointer. */
  function DrawOut(cs: seq<Child>, k: SlotKey, next: Entity, mouse: Point): (r: Option<Grab>)
    ensures r.Some? <==> NodeWidgetOf(cs, k.nodeId).Some?
    ensures r.Some? ==> r.value.edges == [next] && r.value.freeSide == Opposite(k.side) && r.value.next == next + 1
  {
    match NewLooseEdge(cs, k, next, mouse)
    case None => None
    case Some(edge) =>
      Some(Grab(ApplyTo(cs + [edge], FreeEnd(Opposite(k.side), mouse), {next}), [next], Opposite(k.side), next + 1))
  }

  /** The edges of an input slot picked up by their input ends, which follow the pointer. */
  function PickUp(cs: seq<Child>, held: seq<Entity>, next: Entity, mouse: Point): Grab {
    Grab(ApplyTo(cs, FreeEnd(Input, mouse), Handles(held)), held, Input, next)
  }

  /** `grab_slot_edge` on slot widget `s`: from an input slot with edges attached, those
      edges are picked up; otherwise a loose edge is drawn out of the slot. None where the
      source panics (`s` is not a slot, the slot's node widget is missing). */
  function GrabSlot(cs: seq<Child>, dragged: Option<DragDrop>, draggedEdges: seq<Entity>,
                    s: Entity, next: Entity, mouse: Point): (r: Option<Grab>)
    ensures r.Some? ==> SlotKeyOf(cs, s).Some?
  {
    match SlotKeyOf(cs, s)
    case None => None
    case Some(k) =>
      if k.side == Output then DrawOut(cs, k, next, mouse)
      else
        match HeldEdges(cs, dragged, draggedEdges)
        case None => None
        case Some(held) => if held == [] then DrawOut(cs, k, next, mouse) else Some(PickUp(cs, held, next, mouse))
  }

  /** After a grab, each dragged edge is an edge widget that ends in the grabbed slot on
      the side it stays anchored and has its free end under the pointer. */
  lemma GrabbedEdgesFollowPointer(cs: seq<Child>, dragged: Option<DragDrop>, draggedEdges: seq<Entity>,
                                  s: Entity, next: Entity, mouse: Point, e: Entity)
    requires Distinct(cs) && HandlesBelow(cs, next) && 0 < next
    requires dragged == Some(DragDrop(SlotWidget, s))
    requires GrabSlot(cs, dragged, draggedEdges, s, next, mouse).Some?
    requires e in GrabSlot(cs, dragged, draggedEdges, s, next, mouse).value.edges
    ensures var g := GrabSlot(cs, dragged, draggedEdges, s, next, mouse).value;
            var c := Find(g.children, e);
            c.Some? && c.value.Edge? && Attached(c.value, SlotKeyOf(cs, s).value) && EndPoint(c.value, g.freeSide) == mouse
  {
    var k := SlotKeyOf(cs, s).value;
    if k.side == Input && HeldEdges(cs, dragged, draggedEdges).value != [] {
      PickedUpFollow(cs, HeldEdges(cs, dragged, draggedEdges).value, k, next, mouse, e);
    } else {
      DrawnOutFollows(cs, k, next, mouse);
    }
  }

  lemma PickedUpFollow(cs: seq<Child>, held: seq<Entity>, k: SlotKey, next: Entity, mouse: Point, e: Entity)
    requires Distinct(cs) && held == Select(cs, InSlot(k)) && e in held && k.side == Input
    ensures var c := Find(PickUp(cs, held, next, mouse).children, e);
            c.Some? && c.value.Edge? && Attached(c.value, k) && EndPoint(c.value, Input) == mouse
  {
    var i :| 0 <= i < |cs| && cs[i].entity == e && Matches(cs[i], InSlot(k));
    var c := cs[i];
    FindDistinct(cs, c);
    FindApplyTo(cs, FreeEnd(Input, mouse), Handles(held), e);
    assert e in Handles(held);
    FreeEndMoves(c, Input, mouse);
    assert Find(PickUp(cs, held, next, mouse).children, e) == Some(Apply(c, FreeEnd(Input, mouse)));
  }

  lemma DrawnOutFollows(cs: seq<Child>, k: SlotKey, next: Entity, mouse: Point)
    requires Distinct(cs) && HandlesBelow(cs, next) && 0 < next
    requires DrawOut(cs, k, next, mouse).Some?
    ensures var c := Find(DrawOut(cs, k, next, mouse).value.children, next);
            c.Some? && c.value.Edge? && Attached(c.value, k) && EndPoint(c.value, Opposite(k.side)) == mouse
  {
    var edge := NewLooseEdge(cs, k, next, mouse).value;
    var cs1 := cs + [edge];
    FreshAppend(cs, edge, next);
    assert cs1[|cs|] == edge;
    FindDistinct(cs1, edge);
    FindApplyTo(cs1, FreeEnd(Opposite(k.side), mouse), {next}, next);
    FreeEndMoves(edge, Opposite(k.side), mouse);
    assert DrawOut(cs, k, next, mouse).value.children == ApplyTo(cs1, FreeEnd(Opposite(k.side), mouse), {next});
  }

  /** `grab_slot_edge` on slot widget `s` while `s` is the dragged widget. From an input
      slot with edges attached, exactly those edges are picked up, their input ends
      following the pointer, and no handle is used. Otherwise one loose edge with the
      next free handle is drawn out of the slot, its free end under the pointer, and
      appended after the unchanged children. The grab fails only when it must draw out
      and the slot's node widget is missing. */
  lemma GrabSlotCarries(cs: seq<Child>, s: Child, draggedEdges: seq<Entity>, next: Entity, mouse: Point)
    requires Distinct(cs) && HandlesBelow(cs, next) && 0 < next && s in cs && s.Slot?
    ensures var held := Select(cs, InSlot(s.Key()));
            var r := GrabSlot(cs, Some(DragDrop(SlotWidget, s.entity)), draggedEdges, s.entity, next, mouse);
            (r.Some? <==> (s.side == Input && held != []) || NodeWidgetOf(cs, s.nodeId).Some?) &&
            (s.side == Input && held != [] ==>
               r == Some(Grab(ApplyTo(cs, FreeEnd(Input, mouse), Handles(held)), held, Input, next))) &&
            (!(s.side == Input && held != []) && r.Some? ==>
               r.value.edges == [next] && r.value.freeSide == Opposite(s.side) && r.value.next == next + 1 &&
               |r.value.children| == |cs| + 1 && r.value.children[..|cs|] == cs &&
               var edge := r.value.children[|cs|];
               edge.Edge? && edge.entity == next && Attached(edge, s.Key()) && EndPoint(edge, Opposite(s.side)) == mouse)
  {
    NamedChild(cs, s);
    var k := s.Key();
    var held := Select(cs, InSlot(k));
    var g := GrabSlot(cs, Some(DragDrop(SlotWidget, s.entity)), draggedEdges, s.entity, next, mouse);
    if s.side == Input && held != [] {
      assert g == Some(PickUp(cs, held, next, mouse));
    } else {
      assert g == DrawOut(cs, k, next, mouse);
      if g.Some? {
        DrawnOutAppends(cs, k, next, mouse);
      }
    }
  }

  /** A slot disabled when its drag began stays disabled through the grab and through
      `reset_dragging`: once grabbed, the drag is recorded on the placeholder handle 0,
      so the `enabled` write at the end of the drag reaches no child of the container. */
  lemma GrabbedSlotStaysDisabled(cs: seq<Child>, s: Child, draggedEdges: seq<Entity>, next: Entity, mouse: Point)
    requires Distinct(cs) && HandlesBelow(cs, next) && 0 < next && s in cs && s.Slot?
    ensures var c1 := ApplyTo(cs, SetEnabled(false), {s.entity});
            var g := GrabSlot(c1, Some(DragDrop(SlotWidget, s.entity)), draggedEdges, s.entity, next, mouse);
            g.Some? ==>
              Find(WithEnabled(g.value.children, Some(DragDrop(EdgeWidget, 0)), true), s.entity)
                == Some(Apply(s, SetEnabled(false)))
  {
    var sd := Apply(s, SetEnabled(false));
    var c1 := ApplyTo(cs, SetEnabled(false), {s.entity});
    ApplyKeepsHandles(cs, SetEnabled(false), {s.entity}, next);
    var i :| 0 <= i < |cs| && cs[i] == s;
    assert c1[i] == sd;
    var g := GrabSlot(c1, Some(DragDrop(SlotWidget, s.entity)), draggedEdges, s.entity, next, mouse);
    GrabKeepsSlot(c1, sd, draggedEdges, next, mouse);
    if g.Some? {
      FindApplyTo(g.value.children, SetEnabled(true), {0}, s.entity);
    }
  }

  /** A grab leaves the grabbed slot widget as it is. */
  lemma GrabKeepsSlot(cs: seq<Child>, s: Child, draggedEdges: seq<Entity>, next: Entity, mouse: Point)
    requires Distinct(cs) && HandlesBelow(cs, next) && 0 < next && s in cs && s.Slot?
    ensures var g := GrabSlot(cs, Some(DragDrop(SlotWidget, s.entity)), draggedEdges, s.entity, next, mouse);
            g.Some? ==> Find(g.value.children, s.entity) == Some(s)
  {
    var g := GrabSlot(cs, Some(DragDrop(SlotWidget, s.entity)), draggedEdges, s.entity, next, mouse);
    GrabSlotCarries(cs, s, draggedEdges, next, mouse);
    if g.Some? {
      var held := Select(cs, InSlot(s.Key()));
      if s.side == Input && held != [] {
        PickUpKeepsSlot(cs, s, held, mouse);
      } else {
        AppendKeepsChild(cs, s, g.value.children, next);
      }
    }
  }

  /** Freeing the ends of the held edge widgets leaves a slot widget as it is. */
  lemma PickUpKeepsSlot(cs: seq<Child>, s: Child, held: seq<Entity>, mouse: Point)
    requires Distinct(cs) && s in cs && s.Slot?
    ensures Find(ApplyTo(cs, FreeEnd(Input, mouse), Handles(held)), s.entity) == Some(s)
  {
    FindDistinct(cs, s);
    FindApplyTo(cs, FreeEnd(Input, mouse), Handles(held), s.entity);
  }

  /** A child is still found after one child with a fresh handle is appended. */
  lemma AppendKeepsChild(cs: seq<Child>, s: Child, kids: seq<Child>, next: Entity)
    requires Distinct(cs) && HandlesBelow(cs, next) && s in cs
    requires |kids| == |cs| + 1 && kids[..|cs|] == cs && kids[|cs|].entity == next
    ensures Find(kids, s.entity) == Some(s)
  {
    var edge := kids[|cs|];
    assert kids == cs + [edge];
    FreshAppend(cs, edge, next);
    FindDistinct(kids, s);
  }

  /** Drawing out appends one edge widget after the unchanged children. */
  lemma DrawnOutAppends(cs: seq<Child>, k: SlotKey, next: Entity, mouse: Point)
    requires Distinct(cs) && HandlesBelow(cs, next) && 0 < next
    requires DrawOut(cs, k, next, mouse).Some?
    ensures var g := DrawOut(cs, k, next, mouse).value;
            |g.children| == |cs| + 1 && g.children[..|cs|] == cs &&
            var edge := g.children[|cs|];
            edge.Edge? && edge.entity == next && Attached(edge, k) && EndPoint(edge, Opposite(k.side)) == mouse
  {
    var edge := NewLooseEdge(cs, k, next, mouse).value;
    var cs1 := cs + [edge];
    var r := ApplyTo(cs1, FreeEnd(Opposite(k.side), mouse), {next});
    forall i | 0 <= i < |cs| ensures r[i] == cs[i] {
      assert cs[i] in cs;
    }
    assert r[..|cs|] == cs;
    FreeEndMoves(edge, Opposite(k.side), mouse);
  }

  /** The widgets, next free handle, graph and locations a controller step works on. */
  datatype Scene = Scene(children: seq<Child>, next: Entity, graph: Graph, locations: seq<Location>)

  /** The result of a step: the new scene, or where the source panics and why. */
  datatype Outcome = Failed(fault: Fault) | Edited(scene: Scene)

  /** What a left press at `p` starts: a drag of the topmost clickable child under the
      pointer, recorded with its kind, and the offset from the child's corner to the
      pointer. */
  function PressedOn(cs: seq<Child>, hit: HitTest, p: Point): Option<(DragDrop, Point)> {
    match TopmostPressTarget(cs, hit, p)
    case None => None
    case Some(t) =>
      match Find(cs, t)
      case Some(c) => if c.Edge? then None else Some((DragDrop(c.Kind(), t), Minus(p, ThicknessToPoint(c.margin))))
      case None => None
  }

  /** A press starts a drag exactly when it lands on a node or slot widget. */
  lemma PressedOnTopmost(cs: seq<Child>, hit: HitTest, p: Point)
    requires Distinct(cs)
    ensures PressedOn(cs, hit, p).Some? <==> exists i :: 0 <= i < |cs| && PressTarget(cs[i], hit, p)
  {
    var t := TopmostPressTarget(cs, hit, p);
    if t.Some? {
      var i :| TopmostAt(cs, i, hit, p) && cs[i].entity == t.value;
      FindDistinct(cs, cs[i]);
    }
  }

  /** The drag a press starts is of the topmost widget under the pointer, recorded with
      the widget's own kind, and the offset keeps the grab point fixed relative to the
      widget's corner. */
  lemma PressedOnTarget(cs: seq<Child>, hit: HitTest, p: Point)
    requires Distinct(cs)
    requires PressedOn(cs, hit, p).Some?
    ensures var d, offset := PressedOn(cs, hit, p).value.0, PressedOn(cs, hit, p).value.1;
            var c := Find(cs, d.entity);
            d.entity == TopmostPressTarget(cs, hit, p).value && hit(d.entity, p) && d.kind != EdgeWidget &&
            c.Some? && c.value.Kind() == d.kind && Plus(ThicknessToPoint(c.value.margin), offset) == p
  {
    TopmostFound(cs, hit, p);
  }

  /** The property menu `open_menu_property` builds exists for a graph node of type
      Mix or Image only. */
  predicate PropertyMenuFor(g: Graph, id: NodeId) {
    match NodeWithId(g.nodes, id)
    case Some(n) => n.nodeType == Mix || n.nodeType == Image
    case None => false
  }

  /** Where a right press at `p` panics: on a node widget, `open_menu_property` unwraps
      the graph node of the widget's id, then reaches `todo!()` unless the node is a Mix
      or an Image. None when the press does not panic. */
  function RightPressFault(cs: seq<Child>, g: Graph, hit: HitTest, p: Point): (r: Option<Fault>)
    ensures r.Some? ==> TopmostPressTarget(cs, hit, p).Some?
    ensures r == Some(MissingNode) || r == Some(NoPropertyMenu) || r.None?
  {
    match TopmostPressTarget(cs, hit, p)
    case None => None
    case Some(t) =>
      match NodeAt(cs, t)
      case None => None
      case Some(w) =>
        match NodeWithId(g.nodes, w.nodeId)
        case None => Some(MissingNode)
        case Some(n) => if n.nodeType == Mix || n.nodeType == Image then None else Some(NoPropertyMenu)
  }

  /** A right press panics exactly when the topmost widget under the pointer is a node
      widget whose graph node has no property menu; the fault says whether the graph
      lacks the node. */
  lemma RightPressFaultMeaning(cs: seq<Child>, g: Graph, hit: HitTest, p: Point)
    requires Distinct(cs)
    ensures var r := RightPressFault(cs, g, hit, p);
            (r.Some? <==> exists i :: TopmostAt(cs, i, hit, p) && cs[i].Node? && !PropertyMenuFor(g, cs[i].nodeId)) &&
            (r == Some(MissingNode) <==>
               exists i :: TopmostAt(cs, i, hit, p) && cs[i].Node? && NodeWithId(g.nodes, cs[i].nodeId).None?)
  {
    var t := TopmostPressTarget(cs, hit, p);
    if t.Some? {
      var i :| TopmostAt(cs, i, hit, p) && cs[i].entity == t.value;
      FindDistinct(cs, cs[i]);
      assert forall j :: TopmostAt(cs, j, hit, p) ==> j == i;
    }
  }

  lemma TopmostFound(cs: seq<Child>, hit: HitTest, p: Point)
    requires Distinct(cs)
    requires TopmostPressTarget(cs, hit, p).Some?
    ensures var t := TopmostPressTarget(cs, hit, p).value;
            Find(cs, t).Some? && PressTarget(Find(cs, t).value, hit, p)
  {
    var t := TopmostPressTarget(cs, hit, p).value;
    var i :| TopmostAt(cs, i, hit, p) && cs[i].entity == t;
    FindDistinct(cs, cs[i]);
  }

  /** A drop on empty space (`remove_dragged_edges`, then `update_dragged_node_to_graph`):
      the edges the drag carries go from the screen and their connections from the graph,
      and a dragged node writes its place back to its location records. */
  function DropNowhere(sc: Scene, dragged: Option<DragDrop>, draggedEdges: seq<Entity>): Outcome {
    match HeldEdges(sc.children, dragged, draggedEdges)
    case None => Failed(MissingWidget)
    case Some(held) =>
      if !AllEdges(sc.children, held) then Failed(MissingWidget)
      else
        var cs := Without(sc.children, ByHandle(held));
        match DroppedRecords(sc.locations, cs, dragged)
        case None => Failed(MissingWidget)
        case Some(locs) => Edited(Scene(cs, sc.next, RemoveEdges(sc.graph, Cores(sc.children, held)), locs))
  }

  /** After a drop on empty space exactly the carried edge widgets are gone, and the
      graph has lost exactly the connections they drew. */
  lemma DropNowhereRemoves(sc: Scene, dragged: Option<DragDrop>, draggedEdges: seq<Entity>, c: Child, x: CoreEdge)
    requires DropNowhere(sc, dragged, draggedEdges).Edited?
    ensures var held, r := HeldEdges(sc.children, dragged, draggedEdges).value, DropNowhere(sc, dragged, draggedEdges).scene;
            (c in r.children <==> c in sc.children && c.entity !in held) &&
            r.graph.nodes == sc.graph.nodes &&
            (x in r.graph.edges <==> x in sc.graph.edges && x !in Cores(sc.children, held)) &&
            r.next == sc.next
  {
    var held := HeldEdges(sc.children, dragged, draggedEdges).value;
    ByHandleMatch(held, c);
    RemoveEdgesExactly(sc.graph, Cores(sc.children, held));
  }

  /** A dropped node carries no edges; it stays where it was dragged to, and afterwards
      its node is found at the widget's corner if it had a location, while every other
      node is found where it was. */
  lemma DropNowhereRecords(sc: Scene, dragged: Option<DragDrop>, draggedEdges: seq<Entity>, n: Child, other: NodeId)
    requires DropNowhere(sc, dragged, draggedEdges).Edited?
    requires dragged.Some? && dragged.value.kind == NodeWidget && Find(sc.children, dragged.value.entity) == Some(n)
    ensures var r := DropNowhere(sc, dragged, draggedEdges).scene;
            r.children == sc.children && r.graph == sc.graph &&
            TryGetLocation(r.locations, n.nodeId)
              == (if TryGetLocation(sc.locations, n.nodeId).Some? then Some(ThicknessToPoint(n.margin)) else None) &&
            (other != n.nodeId ==> TryGetLocation(r.locations, other) == TryGetLocation(sc.locations, other))
  {
    WithoutNoHandles(sc.children);
    assert Cores(sc.children, []) == [];
    MoveLocationsFound(sc.locations, n.nodeId, ThicknessToPoint(n.margin), other);
  }

  /** The carried edges `held` dropped on slot `k`, whose place on its node is `goal`:
      each edge is rebound to the slot and anchored at `goal`, and the connection from
      the slot to its other end is requested; then the slot's edge widgets are rebuilt
      from the graph (`update_slot_edges_from_graph`), which fails when a connection of
      the slot has a node without a location. */
  function Rebound(sc: Scene, held: seq<Entity>, k: SlotKey, goal: Point, accepts: ConnectRule): Outcome
    requires AllEdges(sc.children, held)
  {
    var g := ConnectAll(sc.graph, Joins(sc.children, held, k), accepts);
    if SlotPlaced(g, k, sc.locations) then
      var cs := ApplyTo(sc.children, Rebind(k, goal), Handles(held));
      Edited(Scene(Resynced(cs, g, sc.locations, k, sc.next), sc.next + |SlotConnections(g, k)|, g, sc.locations))
    else Failed(MissingLocation)
  }

  /** A drop of the carried edges on slot widget `s` (`handle_dropped_entity`): the goal
      is where `position_edge` puts the slot on its node widget's corner. */
  function SlotDrop(sc: Scene, dragged: Option<DragDrop>, draggedEdges: seq<Entity>, s: Entity, accepts: ConnectRule): Outcome {
    match SlotKeyOf(sc.children, s)
    case None => Failed(MissingWidget)
    case Some(k) =>
      match NodeWidgetOf(sc.children, k.nodeId)
      case None => Failed(MissingNode)
      case Some(n) =>
        match HeldEdges(sc.children, dragged, draggedEdges)
        case None => Failed(MissingWidget)
        case Some(held) =>
          if !AllEdges(sc.children, held) then Failed(MissingWidget)
          else Rebound(sc, held, k, PositionEdge(k.side, k.slotId, ThicknessToPoint(n.margin)), accepts)
  }

  /** After the carried edges are dropped on a slot, the graph has kept all its
      connections and gained only connections in the slot; the slot's edge widgets are
      exactly the ones drawn from the graph's connections in the slot, and every other
      child is what rebinding the carried edges made of it. */
  lemma ReboundMeaning(sc: Scene, held: seq<Entity>, k: SlotKey, goal: Point, accepts: ConnectRule, x: CoreEdge)
    requires AllEdges(sc.children, held)
    requires Rebound(sc, held, k, goal, accepts).Edited?
    ensures var r := Rebound(sc, held, k, goal, accepts).scene;
            r.graph.nodes == sc.graph.nodes && r.locations == sc.locations &&
            (x in sc.graph.edges ==> x in r.graph.edges) &&
            (x in r.graph.edges && x !in sc.graph.edges ==> EdgeInSlot(x, k.nodeId, k.side, k.slotId)) &&
            SlotPlaced(r.graph, k, r.locations) &&
            Keep(r.children, InSlot(k)) == NewEdges(SlotConnections(r.graph, k), r.locations, sc.next) &&
            Without(r.children, InSlot(k)) == Without(ApplyTo(sc.children, Rebind(k, goal), Handles(held)), InSlot(k)) &&
            r.next == sc.next + |SlotConnections(r.graph, k)|
  {
    var g := ConnectAll(sc.graph, Joins(sc.children, held, k), accepts);
    ResyncMatchesGraph(ApplyTo(sc.children, Rebind(k, goal), Handles(held)), g, sc.locations, k, sc.next);
  }

  /** Rebinding the carried edges and resyncing a slot keeps the list in order, with the
      next free handle moved past the re-created edges. */
  lemma WellFormedRebound(sc: Scene, held: seq<Entity>, k: SlotKey, goal: Point, accepts: ConnectRule, sel: Option<DragDrop>)
    requires AllEdges(sc.children, held)
    requires WellFormed(sc.children, sc.next, sel)
    requires Rebound(sc, held, k, goal, accepts).Edited?
    ensures var r := Rebound(sc, held, k, goal, accepts).scene; WellFormed(r.children, r.next, sel)
  {
    var g := ConnectAll(sc.graph, Joins(sc.children, held, k), accepts);
    var cs := ApplyTo(sc.children, Rebind(k, goal), Handles(held));
    WellFormedApply(sc.children, Rebind(k, goal), Handles(held), sc.next, sel);
    WellFormedWithout(cs, InSlot(k), sc.next, sel);
    WellFormedRun(Without(cs, InSlot(k)), NewEdges(SlotConnections(g, k), sc.locations, sc.next), sc.next, sel);
  }

  /** `handle_dropped_entity` after the drag is reset: a drop on nothing, on a slot, or
      (where the source panics) on a node or an edge. */
  function Drop(sc: Scene, dragged: Option<DragDrop>, draggedEdges: seq<Entity>, droppedOn: Option<DragDrop>, accepts: ConnectRule): Outcome {
    match droppedOn
    case None => DropNowhere(sc, dragged, draggedEdges)
    case Some(d) =>
      match d.kind
      case SlotWidget => SlotDrop(sc, dragged, draggedEdges, d.entity, accepts)
      case NodeWidget => Failed(DroppedOnNode)
      case EdgeWidget => Failed(DroppedOnEdge)
  }
}
