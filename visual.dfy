/** The visual entity list of the node container: its Node, Slot and Edge children in
    drawing order, the queries the controller runs over them (src/node_container.rs
    `children_type`, `get_edges_in_slot`, `node_edges`, `node_slots`,
    `get_slots_in_node`, `get_clicked_child`, `get_most_recent_entity_type`) and the
    in-place property updates it applies to them. */
module Visual {
  import opened Wrappers
  import opened Geometry
  import opened CoreGraph

  /** A widget handle (orbtk `Entity`). */
  type Entity = nat

  /** The `widget_type` tag every child of the container carries. */
  datatype WidgetType = NodeWidget | SlotWidget | EdgeWidget

  /** What identifies a slot: its node, its side and its index on that side. */
  datatype SlotKey = SlotKey(nodeId: NodeId, side: Side, slotId: SlotId)

  /** One child widget of the container, with the properties the controller reads and
      writes. A node's `my_margin` and `margin` are bound to each other and kept as one. */
  datatype Child =
    | Node(entity: Entity, nodeId: NodeId, margin: Thickness,
           slotCountInput: nat, slotCountOutput: nat, enabled: bool, selected: bool)
    | Slot(entity: Entity, nodeId: NodeId, side: Side, slotId: SlotId,
           margin: Thickness, enabled: bool)
    | Edge(entity: Entity, outputNode: NodeId, inputNode: NodeId,
           outputSlot: SlotId, inputSlot: SlotId, outputPoint: Point, inputPoint: Point)
  {
    function Kind(): WidgetType {
      match this
      case Node(_, _, _, _, _, _, _) => NodeWidget
      case Slot(_, _, _, _, _, _) => SlotWidget
      case Edge(_, _, _, _, _, _, _) => EdgeWidget
    }

    function Key(): SlotKey
      requires Slot?
    {
      SlotKey(nodeId, side, slotId)
    }
  }

  /** The GUI's hit test: whether the laid-out bounds of a widget contain a point. */
  type HitTest = (Entity, Point) -> bool

  /** `is_clickable`: only nodes and slots react to a press. */
  predicate IsClickable(c: Child) {
    c.Kind() == NodeWidget || c.Kind() == SlotWidget
  }

  /** A child that a press at `p` lands on. */
  predicate PressTarget(c: Child, hit: HitTest, p: Point) {
    hit(c.entity, p) && IsClickable(c)
  }

  /** Edge child `c` ends in slot `k` (on the slot's own side). */
  predicate Attached(c: Child, k: SlotKey) {
    c.Edge? &&
    match k.side
    case Input => c.inputNode == k.nodeId && c.inputSlot == k.slotId
    case Output => c.outputNode == k.nodeId && c.outputSlot == k.slotId
  }

  /** The conditions the controller selects or removes children by. */
  datatype Query =
    | OfKind(kind: WidgetType)       // children_type
    | InSlot(key: SlotKey)           // get_edges_in_slot
    | TouchesNode(node: NodeId)      // node_edges
    | SlotOfNode(node: NodeId)       // node_slots, get_slots_in_node
    | HasEntity(entity: Entity)      // remove_child
    | AnyOf(queries: seq<Query>)     // several removals in a row

  predicate Matches(c: Child, q: Query)
    decreases q
  {
    match q
    case OfKind(k) => c.Kind() == k
    case InSlot(k) => Attached(c, k)
    case TouchesNode(n) => c.Edge? && (c.outputNode == n || c.inputNode == n)
    case SlotOfNode(n) => c.Slot? && c.nodeId == n
    case HasEntity(e) => c.entity == e
    case AnyOf(qs) => exists i :: 0 <= i < |qs| && Matches(c, qs[i])
  }

  /** The handles of the children matching `q`, in list order. */
  function Select(cs: seq<Child>, q: Query): (r: seq<Entity>)
    ensures |r| <= |cs|
    ensures forall e :: e in r <==> exists i :: 0 <= i < |cs| && cs[i].entity == e && Matches(cs[i], q)
  {
    if cs == [] then []
    else
      var front, last := cs[..|cs| - 1], cs[|cs| - 1];
      assert forall i :: 0 <= i < |front| ==> front[i] == cs[i];
      Select(front, q) + if Matches(last, q) then [last.entity] else []
  }

  /** The children that do not match `q`, in list order. */
  function Without(cs: seq<Child>, q: Query): (r: seq<Child>)
    ensures |r| <= |cs|
    ensures forall c :: c in r <==> c in cs && !Matches(c, q)
  {
    if cs == [] then []
    else
      var front, last := cs[..|cs| - 1], cs[|cs| - 1];
      assert cs == front + [last];
      Without(front, q) + if Matches(last, q) then [] else [last]
  }

  /** The children that match `q`, in list order. */
  function Keep(cs: seq<Child>, q: Query): (r: seq<Child>)
    ensures |r| <= |cs|
    ensures forall c :: c in r <==> c in cs && Matches(c, q)
  {
    if cs == [] then []
    else
      var front, last := cs[..|cs| - 1], cs[|cs| - 1];
      assert cs == front + [last];
      Keep(front, q) + if Matches(last, q) then [last] else []
  }

  /** The removal `remove_child` performs for each handle of `es` in turn. */
  function ByHandle(es: seq<Entity>): (q: Query)
    ensures q.AnyOf? && |q.queries| == |es|
  {
    AnyOf(seq(|es|, k requires 0 <= k < |es| => HasEntity(es[k])))
  }

  lemma ByHandleStep(es: seq<Entity>, i: nat)
    requires i < |es|
    ensures ByHandle(es[..i + 1]).queries == ByHandle(es[..i]).queries + [HasEntity(es[i])]
  {
  }

  /** The removal by handles takes exactly the children whose handle is listed. */
  lemma ByHandleMatch(es: seq<Entity>, c: Child)
    ensures Matches(c, ByHandle(es)) <==> c.entity in es
  {
    var qs := ByHandle(es).queries;
    if c.entity in es {
      var k :| 0 <= k < |es| && es[k] == c.entity;
      assert Matches(c, qs[k]);
    }
  }

  lemma WithoutNoHandles(cs: seq<Child>)
    ensures Without(cs, ByHandle([])) == cs
  {
    forall c | c in cs ensures !Matches(c, ByHandle([])) {
      ByHandleMatch([], c);
    }
    WithoutNothing(cs, ByHandle([]));
  }

  /** The committed connection an Edge child draws. */
  function CoreOf(c: Child): (e: CoreEdge)
    requires c.Edge?
    ensures EdgeInSlot(e, c.outputNode, Output, c.outputSlot) && EdgeInSlot(e, c.inputNode, Input, c.inputSlot)
  {
    CoreEdge(c.outputNode, c.outputSlot, c.inputNode, c.inputSlot)
  }

  /** No two children share a handle. */
  predicate Distinct(cs: seq<Child>) {
    forall i, j :: 0 <= i < j < |cs| ==> cs[i].entity != cs[j].entity
  }

  predicate NoDuplicates(es: seq<Entity>) {
    forall i, j :: 0 <= i < j < |es| ==> es[i] != es[j]
  }

  /** Every handle is a real widget handle (not 0) handed out before `next`. */
  predicate HandlesBelow(cs: seq<Child>, next: Entity) {
    forall c :: c in cs ==> 0 < c.entity < next
  }

  lemma DistinctSnoc(cs: seq<Child>, c: Child)
    requires Distinct(cs)
    requires forall d :: d in cs ==> d.entity != c.entity
    ensures Distinct(cs + [c])
  {
    var s := cs + [c];
    forall i, j | 0 <= i < j < |s| ensures s[i].entity != s[j].entity {
      if j < |cs| { assert s[i] == cs[i] && s[j] == cs[j]; }
      else { assert s[i] in cs; }
    }
  }

  /** Appending a child with a fresh handle keeps the handles distinct and bounded. */
  lemma FreshAppend(cs: seq<Child>, c: Child, next: Entity)
    requires Distinct(cs) && HandlesBelow(cs, next)
    requires c.entity == next && next > 0
    ensures Distinct(cs + [c]) && HandlesBelow(cs + [c], next + 1)
  {
    DistinctSnoc(cs, c);
  }

  /** Appending children numbered `next`, `next + 1`, ... keeps the handles distinct and
      bounded. */
  lemma FreshRun(cs: seq<Child>, more: seq<Child>, next: Entity)
    requires Distinct(cs) && HandlesBelow(cs, next) && 0 < next
    requires forall i :: 0 <= i < |more| ==> more[i].entity == next + i
    ensures Distinct(cs + more) && HandlesBelow(cs + more, next + |more|)
  {
    var s := cs + more;
    forall i, j | 0 <= i < j < |s| ensures s[i].entity != s[j].entity {
      if j < |cs| {
        assert s[i] == cs[i] && s[j] == cs[j];
      } else if i < |cs| {
        assert s[i] in cs && s[j] == more[j - |cs|];
      } else {
        assert s[i] == more[i - |cs|] && s[j] == more[j - |cs|];
      }
    }
    forall c | c in s ensures 0 < c.entity < next + |more| {
      var i :| 0 <= i < |s| && s[i] == c;
      if i >= |cs| { assert c == more[i - |cs|]; }
    }
  }

  /** Keeping some children keeps their handles distinct. */
  lemma {:induction false} DistinctKeep(cs: seq<Child>, q: Query)
    requires Distinct(cs)
    ensures Distinct(Keep(cs, q))
  {
    if cs != [] {
      var front, last := cs[..|cs| - 1], cs[|cs| - 1];
      assert Distinct(front) by {
        forall i, j | 0 <= i < j < |front| ensures front[i].entity != front[j].entity {
          assert front[i] == cs[i] && front[j] == cs[j];
        }
      }
      DistinctKeep(front, q);
      if Matches(last, q) {
        forall d | d in Keep(front, q) ensures d.entity != last.entity {
          var i :| 0 <= i < |front| && front[i] == d;
          assert cs[i] == d;
        }
        DistinctSnoc(Keep(front, q), last);
      }
    }
  }

  /** Removing children keeps the remaining handles distinct. */
  lemma {:induction false} DistinctWithout(cs: seq<Child>, q: Query)
    requires Distinct(cs)
    ensures Distinct(Without(cs, q))
  {
    if cs != [] {
      var front, last := cs[..|cs| - 1], cs[|cs| - 1];
      DistinctWithout(front, q);
      if !Matches(last, q) {
        forall d | d in Without(front, q) ensures d.entity != last.entity {
          var i :| 0 <= i < |front| && front[i] == d;
          assert cs[i] == d;
        }
        DistinctSnoc(Without(front, q), last);
      }
    }
  }

  /** A selection from distinct children names no handle twice. */
  lemma {:induction false} SelectNoDuplicates(cs: seq<Child>, q: Query)
    requires Distinct(cs)
    ensures NoDuplicates(Select(cs, q))
  {
    if cs != [] {
      var front, last := cs[..|cs| - 1], cs[|cs| - 1];
      assert Distinct(front) by {
        forall i, j | 0 <= i < j < |front| ensures front[i].entity != front[j].entity {
          assert front[i] == cs[i] && front[j] == cs[j];
        }
      }
      SelectNoDuplicates(front, q);
      var s := Select(cs, q);
      if Matches(last, q) {
        forall i, j | 0 <= i < j < |s| ensures s[i] != s[j] {
          if j == |s| - 1 {
            assert s[i] in Select(front, q);
            var k :| 0 <= k < |front| && front[k].entity == s[i] && Matches(front[k], q);
            assert cs[k] == front[k];
          }
        }
      }
    }
  }

  lemma {:induction false} WithoutConcat(a: seq<Child>, b: seq<Child>, q: Query)
    ensures Without(a + b, q) == Without(a, q) + Without(b, q)
  {
    if b != [] {
      var front, last := b[..|b| - 1], b[|b| - 1];
      assert (a + b)[..|a + b| - 1] == a + front;
      WithoutConcat(a, front, q);
      assert (a + b)[|a + b| - 1] == b[|b| - 1];
      assert Without(b, q) == Without(front, q) + (if Matches(last, q) then [] else [last]);
    } else {
      assert a + b == a;
    }
  }

  lemma {:induction false} SelectConcat(a: seq<Child>, b: seq<Child>, q: Query)
    ensures Select(a + b, q) == Select(a, q) + Select(b, q)
  {
    if b != [] {
      var front, last := b[..|b| - 1], b[|b| - 1];
      assert (a + b)[..|a + b| - 1] == a + front;
      SelectConcat(a, front, q);
    } else {
      assert a + b == a;
    }
  }

  /** Removal by a query that only agrees on which children match gives the same list. */
  lemma {:induction false} WithoutAgree(cs: seq<Child>, q1: Query, q2: Query)
    requires forall i :: 0 <= i < |cs| ==> Matches(cs[i], q1) == Matches(cs[i], q2)
    ensures Without(cs, q1) == Without(cs, q2)
  {
    if cs != [] {
      var front := cs[..|cs| - 1];
      assert forall i :: 0 <= i < |front| ==> front[i] == cs[i];
      WithoutAgree(front, q1, q2);
    }
  }

  /** A child matches a combined query when it matches a query of either part. */
  lemma AnyOfAppend(c: Child, xs: seq<Query>, ys: seq<Query>)
    ensures Matches(c, AnyOf(xs + ys)) <==> Matches(c, AnyOf(xs)) || Matches(c, AnyOf(ys))
  {
    var zs := xs + ys;
    if Matches(c, AnyOf(zs)) {
      var i :| 0 <= i < |zs| && Matches(c, zs[i]);
      if i < |xs| { assert zs[i] == xs[i]; } else { assert zs[i] == ys[i - |xs|]; }
    }
    if Matches(c, AnyOf(xs)) {
      var i :| 0 <= i < |xs| && Matches(c, xs[i]);
      assert zs[i] == xs[i];
    }
    if Matches(c, AnyOf(ys)) {
      var i :| 0 <= i < |ys| && Matches(c, ys[i]);
      assert zs[|xs| + i] == ys[i];
    }
  }

  /** A child matches the queries of `qs` and then `q` when it matches either. */
  lemma AnyOfSnoc(c: Child, qs: seq<Query>, q: Query)
    ensures Matches(c, AnyOf(qs + [q])) <==> Matches(c, AnyOf(qs)) || Matches(c, q)
  {
    var both := qs + [q];
    if Matches(c, q) { assert both[|qs|] == q; }
    if Matches(c, AnyOf(qs)) {
      var i :| 0 <= i < |qs| && Matches(c, qs[i]);
      assert both[i] == qs[i];
    }
    if Matches(c, AnyOf(both)) {
      var i :| 0 <= i < |both| && Matches(c, both[i]);
      if i < |qs| { assert both[i] == qs[i]; }
    }
  }

  /** Removing with `q` after removing with every query of `qs` is one removal with both. */
  lemma {:induction false} WithoutTwice(cs: seq<Child>, qs: seq<Query>, q: Query)
    ensures Without(Without(cs, AnyOf(qs)), q) == Without(cs, AnyOf(qs + [q]))
  {
    if cs != [] {
      var front, last := cs[..|cs| - 1], cs[|cs| - 1];
      WithoutTwice(front, qs, q);
      AnyOfSnoc(last, qs, q);
      var tail := if Matches(last, AnyOf(qs)) then [] else [last];
      assert Without(cs, AnyOf(qs)) == Without(front, AnyOf(qs)) + tail;
      WithoutConcat(Without(front, AnyOf(qs)), tail, q);
      assert Without(tail, q) == if Matches(last, AnyOf(qs + [q])) then [] else [last];
    }
  }

  /** Nothing matches: nothing is removed. */
  lemma {:induction false} WithoutNothing(cs: seq<Child>, q: Query)
    requires forall c :: c in cs ==> !Matches(c, q)
    ensures Without(cs, q) == cs
  {
    if cs != [] {
      var front := cs[..|cs| - 1];
      assert cs == front + [cs[|cs| - 1]];
      WithoutNothing(front, q);
    }
  }

  /** Everything matches: everything is removed. */
  lemma {:induction false} WithoutEverything(cs: seq<Child>, q: Query)
    requires forall c :: c in cs ==> Matches(c, q)
    ensures Without(cs, q) == []
  {
    if cs != [] {
      var front := cs[..|cs| - 1];
      assert cs == front + [cs[|cs| - 1]];
      WithoutEverything(front, q);
    }
  }

  lemma {:induction false} SelectNothing(cs: seq<Child>, q: Query)
    requires forall c :: c in cs ==> !Matches(c, q)
    ensures Select(cs, q) == []
  {
    if cs != [] {
      var front := cs[..|cs| - 1];
      assert cs == front + [cs[|cs| - 1]];
      SelectNothing(front, q);
    }
  }

  lemma {:induction false} KeepConcat(a: seq<Child>, b: seq<Child>, q: Query)
    ensures Keep(a + b, q) == Keep(a, q) + Keep(b, q)
  {
    if b != [] {
      var front := b[..|b| - 1];
      assert (a + b)[..|a + b| - 1] == a + front;
      KeepConcat(a, front, q);
      assert (a + b)[|a + b| - 1] == b[|b| - 1];
      assert Keep(b, q) == Keep(front, q) + (if Matches(b[|b| - 1], q) then [b[|b| - 1]] else []);
    } else {
      assert a + b == a;
    }
  }

  lemma {:induction false} KeepNothing(cs: seq<Child>, q: Query)
    requires forall c :: c in cs ==> !Matches(c, q)
    ensures Keep(cs, q) == []
  {
    if cs != [] {
      var front := cs[..|cs| - 1];
      assert cs == front + [cs[|cs| - 1]];
      KeepNothing(front, q);
    }
  }

  lemma {:induction false} KeepEverything(cs: seq<Child>, q: Query)
    requires forall c :: c in cs ==> Matches(c, q)
    ensures Keep(cs, q) == cs
  {
    if cs != [] {
      var front := cs[..|cs| - 1];
      assert cs == front + [cs[|cs| - 1]];
      KeepEverything(front, q);
    }
  }

  /** A list is split by a query into the children it keeps and those it removes: the
      selected handles are the handles of the kept children. */
  lemma {:induction false} SelectIsKept(cs: seq<Child>, q: Query)
    ensures Select(cs, q) == seq(|Keep(cs, q)|, i requires 0 <= i < |Keep(cs, q)| => Keep(cs, q)[i].entity)
  {
    if cs != [] {
      var front := cs[..|cs| - 1];
      SelectIsKept(front, q);
    }
  }

  /** Removing the children whose handles a query selected is removing the children the
      query matches, as long as handles are distinct. */
  lemma {:induction false} WithoutSelected(cs: seq<Child>, q: Query, es: seq<Entity>)
    requires Distinct(cs)
    requires es == Select(cs, q)
    ensures Without(cs, ByHandle(es)) == Without(cs, q)
  {
    var byHandle := ByHandle(es);
    forall i | 0 <= i < |cs| ensures Matches(cs[i], byHandle) == Matches(cs[i], q) {
      var hs := byHandle.queries;
      if Matches(cs[i], q) {
        assert cs[i].entity in es;
        var k :| 0 <= k < |es| && es[k] == cs[i].entity;
        assert Matches(cs[i], hs[k]);
      }
      if Matches(cs[i], byHandle) {
        var k :| 0 <= k < |hs| && Matches(cs[i], hs[k]);
        assert es[k] in es;
        var j :| 0 <= j < |cs| && cs[j].entity == es[k] && Matches(cs[j], q);
        assert j == i;
      }
    }
    WithoutAgree(cs, byHandle, q);
  }

  /** `get_most_recent_entity_type`: the handle of the last child of a kind. */
  function MostRecentOfKind(cs: seq<Child>, kind: WidgetType): (r: Option<Entity>)
    ensures r.None? <==> forall i :: 0 <= i < |cs| ==> cs[i].Kind() != kind
    ensures r.Some? ==> exists i :: 0 <= i < |cs| && cs[i].Kind() == kind && cs[i].entity == r.value
                                 && forall j :: i < j < |cs| ==> cs[j].Kind() != kind
  {
    if cs == [] then None
    else if cs[|cs| - 1].Kind() == kind then Some(cs[|cs| - 1].entity)
    else
      var front := cs[..|cs| - 1];
      var r := MostRecentOfKind(front, kind);
      assert forall i :: 0 <= i < |front| ==> front[i] == cs[i];
      assert r.Some? ==> exists i :: 0 <= i < |front| && front[i].Kind() == kind && front[i].entity == r.value
                                  && forall j :: i < j < |cs| ==> cs[j].Kind() != kind;
      r
  }

  /** The child a handle names (orbtk `get_widget`), if it is one of the container's. */
  function Find(cs: seq<Child>, e: Entity): (r: Option<Child>)
    ensures r.None? <==> forall c :: c in cs ==> c.entity != e
    ensures r.Some? ==> r.value in cs && r.value.entity == e
  {
    if cs == [] then None
    else if cs[0].entity == e then Some(cs[0])
    else Find(cs[1..], e)
  }

  lemma {:induction false} FindDistinct(cs: seq<Child>, c: Child)
    requires Distinct(cs) && c in cs
    ensures Find(cs, c.entity) == Some(c)
  {
    if cs[0] != c {
      assert Distinct(cs[1..]) by {
        forall i, j | 0 <= i < j < |cs[1..]| ensures cs[1..][i].entity != cs[1..][j].entity {
          assert cs[1..][i] == cs[i + 1] && cs[1..][j] == cs[j + 1];
        }
      }
      var k :| 0 <= k < |cs| && cs[k] == c;
      assert cs[0].entity != c.entity;
      assert c in cs[1..] by { assert cs[1..][k - 1] == c; }
      FindDistinct(cs[1..], c);
    }
  }

  /** A removal that spares a child leaves it findable by its handle. */
  lemma FindWithout(cs: seq<Child>, q: Query, e: Entity)
    requires Distinct(cs)
    requires Find(cs, e).Some? ==> !Matches(Find(cs, e).value, q)
    ensures Find(Without(cs, q), e) == Find(cs, e)
  {
    DistinctWithout(cs, q);
    match Find(cs, e)
    case Some(c) => FindDistinct(Without(cs, q), c);
    case None =>
  }

  /** `ctx.child(node_id.to_string())`: the first Node widget named after a node id. */
  function NodeWidgetOf(cs: seq<Child>, id: NodeId): (r: Option<Child>)
    ensures r.None? <==> forall c :: c in cs ==> !(c.Node? && c.nodeId == id)
    ensures r.Some? ==> r.value in cs && r.value.Node? && r.value.nodeId == id
  {
    if cs == [] then None
    else if cs[0].Node? && cs[0].nodeId == id then Some(cs[0])
    else NodeWidgetOf(cs[1..], id)
  }

  /** The in-place property updates the controller makes to a child widget. */
  datatype Update =
    | SetMargin(margin: Thickness)                    // refresh_node
    | SetEnabled(enabled: bool)                       // handle_dragged_entity, reset_dragging
    | SetSelected(selected: bool)                     // select_entity
    | EdgeEnds(node: NodeId, nodePosition: Point)     // refresh_node_edges
    | SlotMargins(node: NodeId, nodeMargin: Thickness) // refresh_node_slots
    | FreeEnd(side: Side, position: Point)            // move_edge_side
    | Rebind(key: SlotKey, position: Point)           // handle_dropped_entity

  function Apply(c: Child, u: Update): (d: Child)
    ensures d.entity == c.entity && d.Kind() == c.Kind()
    ensures d.Slot? ==> d.Key() == c.Key()
    ensures u.EdgeEnds? || u.FreeEnd? || u.Rebind? ==> d.Node? ==> d == c
    ensures !u.SetSelected? && d.Node? ==> d.selected == c.selected
  {
    match u
    case SetMargin(m) =>
      if c.Node? || c.Slot? then c.(margin := m) else c
    case SetEnabled(b) =>
      if c.Node? || c.Slot? then c.(enabled := b) else c
    case SetSelected(b) =>
      if c.Node? then c.(selected := b) else c
    case EdgeEnds(n, p) =>
      if c.Edge? && c.outputNode == n then c.(outputPoint := PositionEdge(Output, c.outputSlot, p))
      else if c.Edge? && c.inputNode == n then c.(inputPoint := PositionEdge(Input, c.inputSlot, p))
      else c
    case SlotMargins(n, m) =>
      (match c
       case Slot(e, id, side, k, _, enabled) =>
         if id == n then Slot(e, id, side, k, PositionSlot(side, k, m), enabled) else c
       case _ => c)
    case FreeEnd(side, p) =>
      if !c.Edge? then c
      else if side == Input then c.(inputPoint := p)
      else c.(outputPoint := p)
    case Rebind(k, p) =>
      if !c.Edge? then c
      else if k.side == Input then c.(inputNode := k.nodeId, inputSlot := k.slotId, inputPoint := p)
      else c.(outputNode := k.nodeId, outputSlot := k.slotId, outputPoint := p)
  }

  /** Every update sets properties to values that do not depend on what it overwrites,
      so repeating it changes nothing. */
  lemma ApplyIdempotent(c: Child, u: Update)
    ensures Apply(Apply(c, u), u) == Apply(c, u)
  {
  }

  /** The handles of a list, as a set. */
  function Handles(es: seq<Entity>): set<Entity> {
    set e | e in es
  }

  lemma HandlesStep(es: seq<Entity>, i: nat)
    requires i < |es|
    ensures Handles(es[..i + 1]) == Handles(es[..i]) + {es[i]}
  {
    assert es[..i + 1] == es[..i] + [es[i]];
  }

  /** The end of edge widget `c` on `side`. */
  function EndPoint(c: Child, side: Side): Point
    requires c.Edge?
  {
    match side
    case Input => c.inputPoint
    case Output => c.outputPoint
  }

  /** Moving a free end changes only that end of an edge widget. */
  lemma FreeEndMoves(c: Child, side: Side, p: Point)
    requires c.Edge?
    ensures var d := Apply(c, FreeEnd(side, p));
            d.Edge? && d.entity == c.entity && EndPoint(d, side) == p
            && d.outputNode == c.outputNode && d.inputNode == c.inputNode
            && d.outputSlot == c.outputSlot && d.inputSlot == c.inputSlot
            && EndPoint(d, Opposite(side)) == EndPoint(c, Opposite(side))
  {
  }

  /** The children after applying `u` to every widget whose handle is in `done`. */
  function ApplyTo(cs: seq<Child>, u: Update, done: set<Entity>): (r: seq<Child>)
    ensures |r| == |cs|
    ensures forall i :: 0 <= i < |cs| ==> r[i] == if cs[i].entity in done then Apply(cs[i], u) else cs[i]
  {
    seq(|cs|, i requires 0 <= i < |cs| => if cs[i].entity in done then Apply(cs[i], u) else cs[i])
  }

  /** The children after applying `u` to every widget. */
  function ApplyAll(cs: seq<Child>, u: Update): (r: seq<Child>)
    ensures |r| == |cs|
    ensures forall i :: 0 <= i < |cs| ==> r[i] == Apply(cs[i], u)
  {
    seq(|cs|, i requires 0 <= i < |cs| => Apply(cs[i], u))
  }

  lemma ApplyToStep(cs: seq<Child>, u: Update, done: set<Entity>, e: Entity)
    ensures ApplyTo(ApplyTo(cs, u, done), u, {e}) == ApplyTo(cs, u, done + {e})
  {
    var a, b := ApplyTo(ApplyTo(cs, u, done), u, {e}), ApplyTo(cs, u, done + {e});
    forall i | 0 <= i < |cs| ensures a[i] == b[i] {
      ApplyIdempotent(cs[i], u);
    }
  }

  lemma ApplyKeepsHandles(cs: seq<Child>, u: Update, done: set<Entity>, next: Entity)
    requires Distinct(cs) && HandlesBelow(cs, next)
    ensures Distinct(ApplyTo(cs, u, done)) && HandlesBelow(ApplyTo(cs, u, done), next)
  {
    var r := ApplyTo(cs, u, done);
    forall c | c in r ensures 0 < c.entity < next {
      var i :| 0 <= i < |r| && r[i] == c;
      assert cs[i] in cs;
    }
  }

  lemma ApplyAllKeepsHandles(cs: seq<Child>, u: Update, next: Entity)
    requires Distinct(cs) && HandlesBelow(cs, next)
    ensures Distinct(ApplyAll(cs, u)) && HandlesBelow(ApplyAll(cs, u), next)
  {
    var r := ApplyAll(cs, u);
    forall c | c in r ensures 0 < c.entity < next {
      var i :| 0 <= i < |r| && r[i] == c;
      assert cs[i] in cs;
    }
  }

  lemma {:induction false} FindApplyTo(cs: seq<Child>, u: Update, done: set<Entity>, e: Entity)
    ensures Find(ApplyTo(cs, u, done), e)
         == match Find(cs, e)
            case None => None
            case Some(c) => Some(if e in done then Apply(c, u) else c)
  {
    if cs != [] {
      assert ApplyTo(cs, u, done)[1..] == ApplyTo(cs[1..], u, done);
      FindApplyTo(cs[1..], u, done, e);
    }
  }

  lemma {:induction false} FindApplyAll(cs: seq<Child>, u: Update, e: Entity)
    ensures Find(ApplyAll(cs, u), e)
         == match Find(cs, e)
            case None => None
            case Some(c) => Some(Apply(c, u))
  {
    if cs != [] {
      assert ApplyAll(cs, u)[1..] == ApplyAll(cs[1..], u);
      FindApplyAll(cs[1..], u, e);
    }
  }

  /** Updating the widgets a query selected is updating every widget, when the update
      leaves the unselected ones as they are. */
  lemma SelectedCover(cs: seq<Child>, u: Update, q: Query)
    requires forall c :: !Matches(c, q) ==> Apply(c, u) == c
    ensures ApplyTo(cs, u, Handles(Select(cs, q))) == ApplyAll(cs, u)
  {
    var a, b := ApplyTo(cs, u, Handles(Select(cs, q))), ApplyAll(cs, u);
    forall i | 0 <= i < |cs| ensures a[i] == b[i] {
      if Matches(cs[i], q) { assert cs[i].entity in Select(cs, q); }
    }
  }

  /** `children_type`: the handles of the children of one kind, in list order. */
  method ChildrenType(cs: seq<Child>, kind: WidgetType) returns (r: seq<Entity>)
    ensures r == Select(cs, OfKind(kind))
  {
    r := [];
    var i := 0;
    while i < |cs|
      invariant 0 <= i <= |cs|
      invariant r == Select(cs[..i], OfKind(kind))
    {
      assert cs[..i + 1][..i] == cs[..i];
      if cs[i].Kind() == kind {
        r := r + [cs[i].entity];
      }
      i := i + 1;
    }
    assert cs[..|cs|] == cs;
  }

  /** `cs[i]` is a press target and nothing after it is. */
  predicate TopmostAt(cs: seq<Child>, i: int, hit: HitTest, p: Point) {
    0 <= i < |cs| && PressTarget(cs[i], hit, p) && forall j :: i < j < |cs| ==> !PressTarget(cs[j], hit, p)
  }

  /** The child a press at `p` lands on: the last press target in list order, that is,
      the one drawn on top. */
  function TopmostPressTarget(cs: seq<Child>, hit: HitTest, p: Point): (r: Option<Entity>)
    ensures r.None? <==> forall i :: 0 <= i < |cs| ==> !PressTarget(cs[i], hit, p)
    ensures r.Some? ==> exists i :: TopmostAt(cs, i, hit, p) && cs[i].entity == r.value
  {
    if cs == [] then None
    else if PressTarget(cs[|cs| - 1], hit, p) then
      assert TopmostAt(cs, |cs| - 1, hit, p);
      Some(cs[|cs| - 1].entity)
    else
      var r := TopmostPressTarget(cs[..|cs| - 1], hit, p);
      TopmostMiss(cs, hit, p, r);
      r
  }

  /** When the last child is not a press target, the search over the others answers for
      all. */
  lemma TopmostMiss(cs: seq<Child>, hit: HitTest, p: Point, r: Option<Entity>)
    requires cs != [] && !PressTarget(cs[|cs| - 1], hit, p)
    requires var front := cs[..|cs| - 1];
             (r.None? <==> forall i :: 0 <= i < |front| ==> !PressTarget(front[i], hit, p)) &&
             (r.Some? ==> exists i :: TopmostAt(front, i, hit, p) && front[i].entity == r.value)
    ensures r.None? <==> forall i :: 0 <= i < |cs| ==> !PressTarget(cs[i], hit, p)
    ensures r.Some? ==> exists i :: TopmostAt(cs, i, hit, p) && cs[i].entity == r.value
  {
    var front := cs[..|cs| - 1];
    assert forall i :: 0 <= i < |front| ==> front[i] == cs[i];
    if r.Some? {
      var i :| TopmostAt(front, i, hit, p) && front[i].entity == r.value;
      assert TopmostAt(cs, i, hit, p);
    }
  }

  /** `get_clicked_child`: scans the children from the last one backwards and returns the
      first that is clickable and under the pointer. */
  method GetClickedChild(cs: seq<Child>, hit: HitTest, p: Point) returns (r: Option<Entity>)
    ensures r == TopmostPressTarget(cs, hit, p)
  {
    var i := |cs|;
    while i > 0
      invariant 0 <= i <= |cs|
      invariant TopmostPressTarget(cs[..i], hit, p) == TopmostPressTarget(cs, hit, p)
    {
      assert cs[..i][..i - 1] == cs[..i - 1];
      i := i - 1;
      if hit(cs[i].entity, p) && IsClickable(cs[i]) {
        return Some(cs[i].entity);
      }
    }
    return None;
  }

  /** `es[i]` is under the pointer and nothing after it is. */
  predicate LastHitAt(es: seq<Entity>, i: int, hit: HitTest, p: Point) {
    0 <= i < |es| && hit(es[i], p) && forall j :: i < j < |es| ==> !hit(es[j], p)
  }

  /** The last handle of `es` whose widget is under the pointer. */
  function LastHit(es: seq<Entity>, hit: HitTest, p: Point): (r: Option<Entity>)
    ensures r.None? <==> forall i :: 0 <= i < |es| ==> !hit(es[i], p)
    ensures r.Some? ==> exists i :: LastHitAt(es, i, hit, p) && es[i] == r.value
  {
    if es == [] then None
    else if hit(es[|es| - 1], p) then
      assert LastHitAt(es, |es| - 1, hit, p);
      Some(es[|es| - 1])
    else
      var r := LastHit(es[..|es| - 1], hit, p);
      LastHitMiss(es, hit, p, r);
      r
  }

  /** When the last handle is not hit, the search over the others answers for all. */
  lemma LastHitMiss(es: seq<Entity>, hit: HitTest, p: Point, r: Option<Entity>)
    requires es != [] && !hit(es[|es| - 1], p)
    requires var front := es[..|es| - 1];
             (r.None? <==> forall i :: 0 <= i < |front| ==> !hit(front[i], p)) &&
             (r.Some? ==> exists i :: LastHitAt(front, i, hit, p) && front[i] == r.value)
    ensures r.None? <==> forall i :: 0 <= i < |es| ==> !hit(es[i], p)
    ensures r.Some? ==> exists i :: LastHitAt(es, i, hit, p) && es[i] == r.value
  {
    var front := es[..|es| - 1];
    assert forall i :: 0 <= i < |front| ==> front[i] == es[i];
    if r.Some? {
      var i :| LastHitAt(front, i, hit, p) && front[i] == r.value;
      assert LastHitAt(es, i, hit, p);
    }
  }

  /** The slot search of a release: over the Slot children in list order, each slot under
      the pointer overwrites the target, so the last one wins. */
  method DropTarget(cs: seq<Child>, hit: HitTest, p: Point) returns (r: Option<Entity>)
    ensures r == LastHit(Select(cs, OfKind(SlotWidget)), hit, p)
    ensures r.Some? ==> exists c :: c in cs && c.Slot? && c.entity == r.value
  {
    var slots := ChildrenType(cs, SlotWidget);
    r := None;
    for k := 0 to |slots|
      invariant r == LastHit(slots[..k], hit, p)
    {
      assert slots[..k + 1][..k] == slots[..k];
      if hit(slots[k], p) {
        r := Some(slots[k]);
      }
    }
    assert slots[..|slots|] == slots;
    if r.Some? {
      assert r.value in slots;
    }
  }
}
