/** The part of kanter_core's `NodeGraph` the editor controller relies on. The library
    itself is not part of this model: its connection rules and node creation are
    parameters (`accepts`, the created node), and only the bookkeeping the controller
    observes (edge lists, node lists, `edges_in_slot`) is stated here. */
module CoreGraph {
  import opened Wrappers
  import opened Geometry

  type NodeId = nat
  type SlotId = nat

  /** The node kinds the workspace menu can add (their parameters are left out). */
  datatype NodeType =
    | Mix | Value | Resize | HeightToNormal | Image
    | InputGray | InputRgba | OutputGray | OutputRgba

  /** A node as the library reports it: its id and its slot capacity per side. */
  datatype CoreNode = CoreNode(id: NodeId, nodeType: NodeType, inputCapacity: nat, outputCapacity: nat)

  /** A committed connection from an output slot to an input slot. */
  datatype CoreEdge = CoreEdge(outputId: NodeId, outputSlot: SlotId, inputId: NodeId, inputSlot: SlotId)

  datatype Graph = Graph(nodes: seq<CoreNode>, edges: seq<CoreEdge>)

  /** The library's verdict on a connect request, given the graph it is made on. */
  type ConnectRule = (Graph, CoreEdge) -> bool

  /** Edge `e` ends in slot `slot` on `side` of node `node`. */
  predicate EdgeInSlot(e: CoreEdge, node: NodeId, side: Side, slot: SlotId) {
    match side
    case Input => e.inputId == node && e.inputSlot == slot
    case Output => e.outputId == node && e.outputSlot == slot
  }

  predicate Touches(e: CoreEdge, node: NodeId) {
    e.outputId == node || e.inputId == node
  }

  /** The edges of `edges` that end in the given slot, in list order. */
  function SlotEdges(edges: seq<CoreEdge>, node: NodeId, side: Side, slot: SlotId): (r: seq<CoreEdge>)
    ensures |r| <= |edges|
    ensures forall e :: e in r <==> e in edges && EdgeInSlot(e, node, side, slot)
  {
    if edges == [] then []
    else
      var front := SlotEdges(edges[..|edges| - 1], node, side, slot);
      var last := edges[|edges| - 1];
      assert edges == edges[..|edges| - 1] + [last];
      if EdgeInSlot(last, node, side, slot) then front + [last] else front
  }

  /** `NodeGraph::edges_in_slot`. */
  function EdgesInSlot(g: Graph, node: NodeId, side: Side, slot: SlotId): seq<CoreEdge> {
    SlotEdges(g.edges, node, side, slot)
  }

  /** `NodeGraph::node_with_id`: the first node with that id. */
  function NodeWithId(nodes: seq<CoreNode>, id: NodeId): (r: Option<CoreNode>)
    ensures r.None? <==> forall n :: n in nodes ==> n.id != id
    ensures r.Some? ==> r.value in nodes && r.value.id == id
  {
    if nodes == [] then None
    else if nodes[0].id == id then Some(nodes[0])
    else NodeWithId(nodes[1..], id)
  }

  /** `NodeGraph::add_node` with the node the library has built and numbered. */
  function AddNode(g: Graph, n: CoreNode): (h: Graph)
    ensures h.edges == g.edges
    ensures h.nodes == g.nodes + [n]
  {
    g.(nodes := g.nodes + [n])
  }

  /** The edge `connect_arbitrary` builds when slot (aNode, aSide, aSlot) is joined to
      slot (bNode, bSlot) on the opposite side. */
  function JoinSlots(aNode: NodeId, aSide: Side, aSlot: SlotId, bNode: NodeId, bSlot: SlotId): (e: CoreEdge)
    ensures EdgeInSlot(e, aNode, aSide, aSlot)
    ensures EdgeInSlot(e, bNode, Opposite(aSide), bSlot)
  {
    match aSide
    case Input => CoreEdge(bNode, bSlot, aNode, aSlot)
    case Output => CoreEdge(aNode, aSlot, bNode, bSlot)
  }

  /** `connect_arbitrary`: the library either adds the edge or refuses it; the
      controller ignores which. */
  function Connect(g: Graph, e: CoreEdge, accepts: ConnectRule): (h: Graph)
    ensures h.nodes == g.nodes
    ensures forall x :: x in h.edges <==> x in g.edges || (x == e && accepts(g, e))
    ensures !accepts(g, e) ==> h == g
  {
    if accepts(g, e) then g.(edges := g.edges + [e]) else g
  }

  /** Connect each edge of `es` in turn, each request judged on the graph so far. */
  function ConnectAll(g: Graph, es: seq<CoreEdge>, accepts: ConnectRule): (h: Graph)
    ensures h.nodes == g.nodes
    ensures forall x :: x in g.edges ==> x in h.edges
    ensures forall x :: x in h.edges ==> x in g.edges || x in es
  {
    if es == [] then g
    else Connect(ConnectAll(g, es[..|es| - 1], accepts), es[|es| - 1], accepts)
  }

  function WithoutEdge(edges: seq<CoreEdge>, e: CoreEdge): (r: seq<CoreEdge>)
    ensures forall x :: x in r <==> x in edges && x != e
  {
    if edges == [] then []
    else (if edges[0] == e then [] else [edges[0]]) + WithoutEdge(edges[1..], e)
  }

  /** `NodeGraph::remove_edge(output, input, output_slot, input_slot)`. */
  function RemoveEdge(g: Graph, e: CoreEdge): (h: Graph)
    ensures h.nodes == g.nodes
    ensures forall x :: x in h.edges <==> x in g.edges && x != e
  {
    g.(edges := WithoutEdge(g.edges, e))
  }

  /** Remove each edge of `es` in turn. */
  function RemoveEdges(g: Graph, es: seq<CoreEdge>): Graph {
    if es == [] then g else RemoveEdge(RemoveEdges(g, es[..|es| - 1]), es[|es| - 1])
  }

  lemma RemoveEdgesSnoc(g: Graph, es: seq<CoreEdge>, e: CoreEdge)
    ensures RemoveEdges(g, es + [e]) == RemoveEdge(RemoveEdges(g, es), e)
  {
    assert (es + [e])[..|es|] == es;
  }

  /** Removing a list of edges leaves exactly the edges not named in it. */
  lemma {:induction false} RemoveEdgesExactly(g: Graph, es: seq<CoreEdge>)
    ensures RemoveEdges(g, es).nodes == g.nodes
    ensures forall x :: x in RemoveEdges(g, es).edges <==> x in g.edges && x !in es
  {
    if es != [] {
      var front := es[..|es| - 1];
      RemoveEdgesExactly(g, front);
      assert es == front + [es[|es| - 1]];
    }
  }

  function WithoutNode(nodes: seq<CoreNode>, id: NodeId): (r: seq<CoreNode>)
    ensures forall n :: n in r <==> n in nodes && n.id != id
  {
    if nodes == [] then []
    else (if nodes[0].id == id then [] else [nodes[0]]) + WithoutNode(nodes[1..], id)
  }

  function WithoutTouching(edges: seq<CoreEdge>, id: NodeId): (r: seq<CoreEdge>)
    ensures forall x :: x in r <==> x in edges && !Touches(x, id)
  {
    if edges == [] then []
    else (if Touches(edges[0], id) then [] else [edges[0]]) + WithoutTouching(edges[1..], id)
  }

  /** `NodeGraph::remove_node`: the node goes, and with it every edge that touches it. */
  function RemoveNode(g: Graph, id: NodeId): (h: Graph)
    ensures forall n :: n in h.nodes <==> n in g.nodes && n.id != id
    ensures forall x :: x in h.edges <==> x in g.edges && !Touches(x, id)
  {
    Graph(WithoutNode(g.nodes, id), WithoutTouching(g.edges, id))
  }
}
