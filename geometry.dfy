/** Screen geometry of the node editor: points, margins, the drag threshold and the
    placement of slots and edge end points around a node (src/node_container.rs). */
module Geometry {

  /** A point in workspace coordinates (orbtk `Point`; f64 is modelled as real). */
  datatype Point = Point(x: real, y: real)

  /** A widget margin (orbtk `Thickness`); a widget is placed at (left, top). */
  datatype Thickness = Thickness(left: real, top: real, right: real, bottom: real)

  /** The face of a node a slot hangs off (`WidgetSide`, converted 1:1 to kanter_core `Side`). */
  datatype Side = Input | Output

  type Positive = r: real | r > 0.0 witness 1.0

  // Layout constants of the widget crate. Their values are not part of this model;
  // only that they are positive is used.
  const NODE_WIDTH: Positive
  const SLOT_SIZE: Positive
  const SLOT_SIZE_HALF: Positive
  const SLOT_SPACING: Positive

  /** Pointer travel (in pixels) that turns a press into a drag. */
  const DRAG_THRESHOLD: real := 5.0

  /** The drag offset the controller falls back to after every release. */
  const DRAG_OFFSET_DEFAULT: Point := Point(NODE_WIDTH / 2.0, NODE_WIDTH / 2.0)

  const ORIGIN: Point := Point(0.0, 0.0)

  function Opposite(side: Side): Side {
    match side
    case Input => Output
    case Output => Input
  }

  /** `thickness_to_point`: the (left, top) corner of a margin. */
  function ThicknessToPoint(t: Thickness): (p: Point)
    ensures p.x == t.left && p.y == t.top
  {
    Point(t.left, t.top)
  }

  function Plus(a: Point, b: Point): Point {
    Point(a.x + b.x, a.y + b.y)
  }

  function Minus(a: Point, b: Point): Point {
    Point(a.x - b.x, a.y - b.y)
  }

  function DistanceSquared(a: Point, b: Point): (d: real)
    ensures d >= 0.0
    ensures a == b ==> d == 0.0
  {
    var dx, dy := a.x - b.x, a.y - b.y;
    dx * dx + dy * dy
  }

  /** `a.distance(b) > DRAG_THRESHOLD`, stated without the square root: both sides
      are non-negative, so comparing squares decides the same question. */
  predicate BeyondThreshold(a: Point, b: Point) {
    DistanceSquared(a, b) > DRAG_THRESHOLD * DRAG_THRESHOLD
  }

  /** The x coordinate of the node edge a slot of `side` sits on. */
  function SideEdge(side: Side, nodeLeft: real): real {
    match side
    case Input => nodeLeft
    case Output => nodeLeft + NODE_WIDTH
  }

  /** Vertical distance between the node's top and the top of slot row `slot`: one
      slot height plus one spacing per row above it. */
  function RowOffset(slot: nat): (r: real)
    ensures r >= 0.0 && (slot > 0 ==> r > 0.0)
  {
    if slot == 0 then 0.0 else RowOffset(slot - 1) + (SLOT_SIZE + SLOT_SPACING)
  }

  /** The row offset is `slot * (SLOT_SIZE + SLOT_SPACING)`, the product the layout
      computes. */
  lemma {:induction false} RowOffsetProduct(slot: nat)
    ensures RowOffset(slot) == (SLOT_SIZE + SLOT_SPACING) * slot as real
  {
    if slot > 0 {
      RowOffsetProduct(slot - 1);
      assert (SLOT_SIZE + SLOT_SPACING) * slot as real
          == (SLOT_SIZE + SLOT_SPACING) * (slot - 1) as real + (SLOT_SIZE + SLOT_SPACING);
    }
  }

  /** Lower rows are further down. */
  lemma {:induction false} RowOffsetIncreases(i: nat, j: nat)
    requires i < j
    ensures RowOffset(i) < RowOffset(j)
  {
    if i < j - 1 {
      RowOffsetIncreases(i, j - 1);
    }
  }

  /** `position_slot`: the margin of a slot widget of a node whose margin is `nodeMargin`.
      The slot square is centred on the node's left (Input) or right (Output) edge. */
  function PositionSlot(side: Side, slot: nat, nodeMargin: Thickness): (t: Thickness)
    ensures t.right == 0.0 && t.bottom == 0.0
    ensures t.left + SLOT_SIZE_HALF == SideEdge(side, nodeMargin.left)
    ensures slot == 0 ==> t.top == nodeMargin.top
    ensures slot > 0 ==> t.top > nodeMargin.top
  {
    var left := nodeMargin.left - SLOT_SIZE_HALF;
    var top := nodeMargin.top + RowOffset(slot);
    match side
    case Input => Thickness(left, top, 0.0, 0.0)
    case Output => Thickness(left + NODE_WIDTH, top, 0.0, 0.0)
  }

  /** The centre of a slot widget whose margin is `t`. */
  function SlotCentre(t: Thickness): Point {
    Point(t.left + SLOT_SIZE_HALF, t.top + SLOT_SIZE_HALF)
  }

  /** `position_edge`: where an edge attached to slot `slot` on `side` of a node placed
      at `nodePosition` ends. It is the centre of the slot widget `position_slot` places. */
  function PositionEdge(side: Side, slot: nat, nodePosition: Point): (p: Point)
    ensures p == SlotCentre(PositionSlot(side, slot, Thickness(nodePosition.x, nodePosition.y, 0.0, 0.0)))
    ensures p.x == SideEdge(side, nodePosition.x)
  {
    var x := nodePosition.x;
    var y := nodePosition.y + SLOT_SIZE_HALF + RowOffset(slot);
    match side
    case Input => Point(x, y)
    case Output => Point(x + NODE_WIDTH, y)
  }

  /** Slot rows go downwards: a higher slot index gives a strictly lower anchor. */
  lemma {:induction false} EdgeAnchorsIncrease(side: Side, i: nat, j: nat, nodePosition: Point)
    requires i < j
    ensures PositionEdge(side, i, nodePosition).y < PositionEdge(side, j, nodePosition).y
    ensures PositionEdge(side, i, nodePosition).x == PositionEdge(side, j, nodePosition).x
  {
    RowOffsetIncreases(i, j);
  }

  /** Distinct slots on one side of a node never share an anchor. */
  lemma EdgeAnchorsDistinct(side: Side, i: nat, j: nat, nodePosition: Point)
    requires i != j
    ensures PositionEdge(side, i, nodePosition) != PositionEdge(side, j, nodePosition)
  {
    if i < j { EdgeAnchorsIncrease(side, i, j, nodePosition); }
    else { EdgeAnchorsIncrease(side, j, i, nodePosition); }
  }

  /** The input and output anchors of one slot row lie NODE_WIDTH apart, at the same height. */
  lemma FacingAnchors(slot: nat, nodePosition: Point)
    ensures PositionEdge(Output, slot, nodePosition).x == PositionEdge(Input, slot, nodePosition).x + NODE_WIDTH
    ensures PositionEdge(Output, slot, nodePosition).y == PositionEdge(Input, slot, nodePosition).y
  {
  }

  /** Moving a node moves every one of its anchors by the same vector. */
  lemma AnchorsFollowNode(side: Side, slot: nat, nodePosition: Point, delta: Point)
    ensures PositionEdge(side, slot, Plus(nodePosition, delta))
         == Plus(PositionEdge(side, slot, nodePosition), delta)
  {
  }
}
