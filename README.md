# kanter node-graph editor: controller model

kanter is a node-based texture editor. Its GUI has a workspace widget that holds a node
container. The container draws the nodes of a `kanter_core` node graph, their input and
output slots, and the edges between slots, each as a child widget. This project models
the two state objects that drive that editor.

- `NodeContainerState` (src/node_container.rs), modelled in `Container`. Each GUI tick
  it takes the pending pointer or key action and:
  - presses a node or slot, or releases over a slot;
  - adds a node the menu asked for;
  - moves what is being dragged: a node with its slots and edges, a loose edge drawn
    out of a slot, or edges picked up from an input slot;
  - on release, commits the drop to the graph (reconnect onto a slot) or cancels it
    (drop on empty space deletes the carried edges);
  - updates the selection and deletes the selected node;
  - loads a saved graph, rebuilding every widget from it.

  The container keeps three things in step: the library graph, the recorded node
  locations and its child widgets.
- `WorkspaceState` (src/workspace.rs), modelled in `Workspace`. Its event callbacks
  record one pending action. The node menu records one add-node request. Each tick the
  workspace opens the node menu when asked, then hands the container either the request
  or the action.

Module layout:

- `Geometry`: points, margins, the drag threshold, where slots and edge ends sit.
- `CoreGraph`: the library graph, as far as the controller uses it.
- `Layout`: the location records and the widgets drawn from the graph.
- `Visual`: the child-widget list, the filters the controller selects children by, and
  the hit tests.
- `ContainerSpec`: the specification functions of the controller's operations.
- `Passes`, `Populate`, `Steps`: the loops and the straight-line steps, as methods on
  values, each proved equal to its specification function.
- `Container`, `Workspace`: the two classes. Their fields are the source's fields, and
  each method runs the steps and stores the results.

The container's children, its next free widget handle, the graph and the locations
form one `Scene` value in the field `scene`.

The class invariant `Valid()` states three things:

- widget handles are distinct, non-zero and below the next free handle;
- only the selected node is highlighted;
- the carried edges are listed without repetition.

Every container method keeps `Valid()`.

Where the source panics (`unwrap`, `expect`, `panic!`, a property read from the wrong
kind of widget or from a widget that was deleted), the model returns `Abort` with the reason. Inputs the model cannot see
are parameters:

- the GUI hit test, the `HitTest` (whether a widget's bounds contain a point);
- the library's node construction, the `NodeBuilder`;
- the library's connection rule, the `ConnectRule`;
- the file read of `load_graph`, the `FileReader`.

Where the code and the prose description of the program differ, the model follows the
code:

- deleting a node does not delete its location record;
- `populate_node` appends a location record even for a node that already has one;
  lookups find the first record for a node.

## Model

| member | source | states |
|---|---|---|
| Geometry.DistanceSquared | src/node_container.rs:283-291 | never negative, and zero between equal points; the drag threshold compares it with the threshold squared |
| Geometry.RowOffsetProduct | src/node_container.rs:896-898 | the row offset built one row at a time is the slot index times slot size plus spacing, the product `position_slot` computes |
| Geometry.PositionSlot | src/node_container.rs:896-913 | a slot square is centred on the node's left edge (input) or right edge (output); row 0 is level with the node's top and later rows lie lower |
| Geometry.PositionEdge | src/node_container.rs:1189-1199 | an edge end is the centre of the slot square `position_slot` places, on the node's side edge |
| Geometry.EdgeAnchorsIncrease | src/node_container.rs:1189-1199 | on one side, a later slot's anchor is strictly lower at the same x |
| Geometry.EdgeAnchorsDistinct | src/node_container.rs:1189-1199 | two different slots of a side never share an anchor |
| Geometry.FacingAnchors | src/node_container.rs:1189-1199 | input and output anchors of a slot row are one node width apart at the same height |
| Geometry.AnchorsFollowNode | src/node_container.rs:781-812 | moving a node by a delta moves every anchor of it by the same delta |
| CoreGraph.NodeWithId | src/node_container.rs:1028-1036 | finds a node with the id exactly when the graph has one |
| CoreGraph.AddNode | src/node_container.rs:435-442 | the graph gains the new node at the end and keeps its connections |
| CoreGraph.JoinSlots | src/node_container.rs:380-387 | the connection joins the dropped-on slot to the opposite side's slot |
| CoreGraph.Connect | src/node_container.rs:380-387 | the graph gains the connection exactly when the library accepts it, and nothing else changes |
| CoreGraph.ConnectAll | src/node_container.rs:339-391 | connecting in turn keeps every existing connection and adds only the given ones |
| CoreGraph.SlotEdges | src/node_container.rs:495-514 | exactly the connections ending in the slot |
| CoreGraph.RemoveEdge | src/node_container.rs:549-556 | exactly that connection is gone |
| CoreGraph.RemoveEdgesExactly | src/node_container.rs:529-559 | after removing a list, the graph holds exactly its connections outside the list, with the same nodes |
| CoreGraph.RemoveNode | src/node_container.rs:935-937 | the node is gone, and so is every connection touching it |
| Layout.TryGetLocation | src/node_container.rs:1016-1026 | the first record for the node, or none when no record names it |
| Layout.AppendKeepsFirstMatch | src/node_container.rs:1016-1026 | an appended record is found only for a node that had none |
| Layout.MoveLocationsFound | src/node_container.rs:479-492 | the moved node's lookup gives the new point if it had a record; every other node's lookup is unchanged |
| Layout.NodeSlots | src/node_container.rs:1091-1128 | one enabled slot widget per input and per output, in order, each placed by `position_slot`, with consecutive fresh handles |
| Layout.EdgeChild | src/node_container.rs:1142-1187 | the edge widget draws exactly the committed connection |
| Layout.NewEdges | src/node_container.rs:1136-1140 | one edge widget per connection, in the graph's order, with consecutive handles |
| Layout.ResyncMatchesGraph | src/node_container.rs:495-514 | after the slot's edges are redrawn, the other children are unchanged and the slot's edges are drawn from the graph's connections in the slot |
| Layout.ResyncAnchors | src/node_container.rs:495-514 | each redrawn edge ends at its slots on the nodes' recorded locations |
| Layout.ResyncIdempotent | src/node_container.rs:495-514 | redrawing a slot twice gives the same widgets as once, up to fresh handles |
| Visual.Select | src/node_container.rs:876-894 | the handles of exactly the matching children, in order |
| Visual.Without | src/node_container.rs:517-527 | exactly the children that do not match are kept |
| Visual.Keep | src/node_container.rs:863-874 | exactly the matching children are kept |
| Visual.ByHandleMatch | src/node_container.rs:529-559 | a child is removed by handle exactly when its handle is listed |
| Visual.WithoutTwice | src/node_container.rs:946-954 | two removals in a row equal one removal by either condition |
| Visual.WithoutSelected | src/node_container.rs:517-527 | removing by the selected handles equals removing by the condition |
| Visual.MostRecentOfKind | src/node_container.rs:771-777 | the last child of the kind, or none when there is no such child |
| Visual.NodeWidgetOf | src/node_container.rs:725-769 | the node widget of the id exactly when one exists |
| Visual.Apply | src/node_container.rs:652-666 | a property write keeps the handle, the kind and a slot's key; edge writes leave nodes alone |
| Visual.ApplyIdempotent | src/node_container.rs:652-666 | writing the same properties twice is writing them once |
| Visual.FreeEndMoves | src/node_container.rs:652-666 | moving an edge's free end puts that end at the pointer and keeps the other end and the slots |
| Visual.ApplyTo | src/node_container.rs:642-650 | exactly the listed children are rewritten, and the length is kept |
| Visual.ApplyAll | src/node_container.rs:824-847 | every child is rewritten, and the length is kept |
| Visual.SelectedCover | src/node_container.rs:781-812 | rewriting only the selected children equals rewriting all when the others are unaffected |
| Visual.ChildrenType | src/node_container.rs:876-894 | the loop returns the handles of exactly the children of the kind |
| Visual.TopmostPressTarget | src/node_container.rs:89-101 | the last clickable child under the pointer, or none when there is none |
| Visual.GetClickedChild | src/node_container.rs:89-101 | the loop finds the topmost clickable child under the pointer |
| Visual.LastHit | src/node_container.rs:189-200 | the last listed slot under the pointer, or none |
| Visual.DropTarget | src/node_container.rs:187-205 | the loop finds the last slot widget under the pointer, and it is a slot child |
| ContainerSpec.WellFormedApply | src/node_container.rs:570-589 | property writes other than selection keep handles distinct and fresh and the highlight right |
| ContainerSpec.NamedChild | src/node_container.rs:561-567 | with distinct handles, looking up a widget's own handle gives its slot key exactly when it is a slot, and gives the widget itself exactly when it is a node (or an edge) |
| ContainerSpec.HeldBySlot | src/node_container.rs:668-680 | a drag of a slot widget carries a handle exactly when it names an edge widget attached to that slot |
| ContainerSpec.HeldNoDuplicates | src/node_container.rs:668-680 | the carried edges are never listed twice |
| ContainerSpec.SelectedEdges | src/node_container.rs:682-723 | every edge found in a slot is an edge widget |
| ContainerSpec.LooseEdge | src/node_container.rs:725-769 | a loose edge is an edge widget attached to the slot it is drawn from, its end on the slot's side at the anchor and its other end at the free point |
| ContainerSpec.JoinIsRebound | src/node_container.rs:339-391 | rebinding an edge widget onto a slot draws exactly the connection handed to the library |
| ContainerSpec.Joins | src/node_container.rs:339-391 | one connection per carried edge, each ending in the dropped-on slot |
| ContainerSpec.DraggedMargin | src/node_container.rs:570-589 | the grab offset added to the new corner gives the pointer back, so the grab point stays under the pointer; right and bottom are kept |
| ContainerSpec.MoveNodeMeaning | src/node_container.rs:570-589 | after a node move the node has its dragged margin, each edge on it is re-anchored, each of its slots sits at `position_slot`, and every other child is unchanged |
| ContainerSpec.MoveNodeKeepsHandles | src/node_container.rs:570-589 | a node move keeps the handles distinct and fresh and the highlight right |
| ContainerSpec.SlotRemovalsMatch | src/node_container.rs:946-954 | disconnecting removes exactly the slots and the edges attached to them |
| ContainerSpec.DeleteNodeMeaning | src/node_container.rs:927-944 | deleting a node removes exactly the node widget, its slot widgets and the edges attached to its slots |
| ContainerSpec.DeletedWidgetGone | src/node_container.rs:284-286 | after a node is deleted, a drag held on that node or one of its slots names no widget, so the next margin read of the drag fails |
| ContainerSpec.DeleteNodeQuery | src/node_container.rs:927-954 | the removal condition of a delete is the node's handle or a slot removal |
| ContainerSpec.SlotsOfNodeRemove | src/node_container.rs:956-968 | the slots found for a node are exactly its slot widgets |
| ContainerSpec.WithEnabled | src/node_container.rs:402-409 | every child keeps its handle and kind; the dragged node or slot widget gets `enabled` set to the written value and every other child is unchanged |
| ContainerSpec.ReselectedHighlight | src/node_container.rs:415-433 | after a reselection only the new selection is highlighted |
| ContainerSpec.DeleteClearsHighlight | src/node_container.rs:207-212 | after the selected node is deleted nothing is highlighted |
| ContainerSpec.NodeWidgetFor | src/node_container.rs:1028-1083 | a fresh node widget for the node id, unselected |
| ContainerSpec.MovedRecords | src/node_container.rs:479-492 | the records are updated exactly when the handle names a node or slot widget |
| ContainerSpec.NewLooseEdge | src/node_container.rs:725-769 | a loose edge exists exactly when the slot's node widget does; it is attached to the slot, anchored at the slot's edge position on that node widget's margin, with its other end at the pointer |
| ContainerSpec.DrawOut | src/node_container.rs:591-640 | drawing out gives exactly one new carried edge, free on the opposite side |
| ContainerSpec.GrabSlot | src/node_container.rs:591-640 | a grab succeeds only on a slot widget |
| ContainerSpec.GrabSlotCarries | src/node_container.rs:591-640 | a grab succeeds exactly when the slot is an input with edges attached or its node widget exists; an input slot with edges carries exactly those, free at the input end, with no new widget and the same next handle; otherwise one edge widget with the next handle is appended after the unchanged children, attached to the slot with its other end at the pointer |
| ContainerSpec.GrabbedSlotStaysDisabled | src/node_container.rs:402-409 | once a slot is grabbed, the drag is recorded on the placeholder handle 0, so the re-enabling write of `reset_dragging` leaves the grabbed slot disabled |
| ContainerSpec.GrabbedEdgesFollowPointer | src/node_container.rs:591-640 | every carried edge stays attached to the grabbed slot and has its free end at the pointer |
| ContainerSpec.PickedUpFollow | src/node_container.rs:591-640 | edges picked up from an input slot stay attached with their input end at the pointer |
| ContainerSpec.DrawnOutFollows | src/node_container.rs:591-640 | the drawn-out edge is attached to the slot with its free end at the pointer |
| ContainerSpec.PressedOnTopmost | src/node_container.rs:142-167 | a left press starts a drag exactly when it lands on a node or slot widget |
| ContainerSpec.PressedOnTarget | src/node_container.rs:142-167 | the drag records the topmost target and its kind, and the offset of the pointer from the widget's corner |
| ContainerSpec.TopmostFound | src/node_container.rs:89-101 | the topmost target is a child under the pointer |
| ContainerSpec.RightPressFaultMeaning | src/node_container.rs:169-180 | a right press stops the program exactly when the topmost child under the pointer is a node widget whose node is missing or is neither a Mix nor an Image node; a missing node is the `MissingNode` fault |
| ContainerSpec.DropNowhereRemoves | src/node_container.rs:325-331 | a drop on empty space removes exactly the carried edge widgets and their connections |
| ContainerSpec.DropNowhereRecords | src/node_container.rs:465-477 | a dropped node's location becomes its widget's corner; other records are unchanged |
| ContainerSpec.ReboundMeaning | src/node_container.rs:333-391 | a drop on a slot keeps all connections, adds only ones in the slot, and redraws the slot's edges from the graph |
| ContainerSpec.WellFormedRebound | src/node_container.rs:333-391 | a drop on a slot keeps the handles distinct and fresh and the highlight right |
| Passes.ApplyEach | src/node_container.rs:642-650 | the loop rewrites exactly the listed children |
| Passes.RefreshDraggedEdges | src/node_container.rs:642-650 | every carried edge has its free end at the pointer |
| Passes.RefreshNodeEdges | src/node_container.rs:781-812 | every edge on the node is re-anchored at the node's corner |
| Passes.RefreshNodeSlots | src/node_container.rs:824-847 | every slot of the node is placed by `position_slot` of the node's margin |
| Passes.RefreshNode | src/node_container.rs:570-589 | the children become the node move's specification |
| Passes.CreateLooseEdge | src/node_container.rs:725-769 | appends the loose edge with the next handle, or fails when the node widget is missing |
| Passes.RemoveEach | src/node_container.rs:529-559 | the loop removes exactly the listed children |
| Passes.RemoveEdgeWidgets | src/node_container.rs:529-559 | removes the carried edge widgets and their connections; fails exactly when one is not an edge widget |
| Passes.JoinEach | src/node_container.rs:339-391 | rebinds each carried edge and connects its connection; fails exactly when one is not an edge widget |
| Passes.MoveRecords | src/node_container.rs:479-492 | the loop moves every record of the node |
| Passes.CreateEdges | src/node_container.rs:1136-1140 | appends one edge widget per connection; fails exactly when a node has no location |
| Passes.AppendSlotRow | src/node_container.rs:1091-1128 | appends one row of slot widgets with fresh handles |
| Passes.DeleteEdgesInSlot | src/node_container.rs:517-527 | removes exactly the edges attached to the slot |
| Passes.UpdateSlotEdgesFromGraph | src/node_container.rs:495-514 | redraws the slot's edges from the graph; fails on a non-slot handle or a missing location |
| Passes.DeleteSlot | src/node_container.rs:970-977 | removes the slot's edges and then the slot |
| Passes.DisconnectNode | src/node_container.rs:946-954 | removes every slot of the node with its edges |
| Passes.DeleteNode | src/node_container.rs:927-944 | removes the node's widgets and the node from the graph; a handle that is not a node changes nothing |
| Populate.PopulatedNode | src/node_container.rs:1028-1083 | succeeds exactly when the graph has the node |
| Populate.PopulatedNodeRecords | src/node_container.rs:1028-1083 | the node's lookup gives its old location or the origin; other records are unchanged |
| Populate.NodeSlotsShown | src/node_container.rs:1057-1082 | an input node shows no input slot and an output node no output slot; every other side shows one slot per unit of capacity, in order, all belonging to the node |
| Populate.PopulatedNodeWidget | src/node_container.rs:1028-1083 | appends the node widget at the location and then its slot widgets |
| Populate.PopulatedNodeMostRecent | src/node_container.rs:435-452 | the new node widget is the most recent node widget |
| Populate.LastNodeWidget | src/node_container.rs:771-777 | slot widgets after a node widget leave it the most recent node |
| Populate.WellFormedPopulatedNode | src/node_container.rs:1028-1083 | populating a node keeps the handles distinct and fresh |
| Populate.RowOfSlots | src/node_container.rs:1091-1128 | the slots built one at a time, as the loop appends them, are the node's slot rows |
| Populate.PopulateNodeSlots | src/node_container.rs:1091-1128 | appends the node's slot widgets, or fails when the handle is not a node |
| Populate.PopulateNode | src/node_container.rs:1028-1083 | the method's result is the specification's |
| Populate.PopulatedNodesPlaced | src/node_container.rs:1085-1089 | after populating, every listed node has a location and old locations are kept |
| Populate.WellFormedPopulatedNodes | src/node_container.rs:1085-1089 | populating keeps the handles distinct and fresh |
| Populate.RepopulatedNodes | src/node_container.rs:1007-1014 | rebuilding places every node of the graph |
| Populate.RepopulatedEdges | src/node_container.rs:1136-1140 | after a rebuild, every connection is drawn by exactly one edge widget, in the graph's order |
| Populate.RepopulatedUniqueSlots | src/node_container.rs:1007-1014 | after the corrected rebuild, each slot has one widget |
| Populate.UniqueSlotsPopulated | src/node_container.rs:1085-1089 | populating distinct nodes gives each slot one widget |
| Populate.PopulatedSlotsAppend | src/node_container.rs:1130-1134 | `populate_slots` succeeds exactly when every listed handle names a node widget, and then appends those nodes' slot rows, in order, after the unchanged children, numbered on from the next free handle |
| Populate.RepopulatedAsWrittenDuplicates | src/node_container.rs:1007-1014 | the rebuild as written gives a slot two widgets |
| Populate.RepopulatedAsWrittenDoubles | src/node_container.rs:1007-1014 | for every graph whose first node shows a slot, the rebuild as written gives that slot two widgets |
| Populate.RepopulatedAsWrittenUnconnected | src/node_container.rs:1007-1014 | with no connections, the rebuild as written is the re-run of `populate_slots` |
| Populate.MixNodePopulated | src/node_container.rs:1085-1089 | one mix node gives a node widget and two slot widgets |
| Populate.MixNodeSlotsAgain | src/node_container.rs:1130-1134 | `populate_slots` appends that node's slot widgets a second time |
| Populate.PopulateWorkspace | src/node_container.rs:1007-1014 | the rebuild follows the corrected specification and leaves a well-formed list |
| Steps.GrabSlotEdge | src/node_container.rs:591-640 | the step gives the grab's specification and keeps the list well-formed |
| Steps.PopulateAddedNode | src/node_container.rs:435-452 | the added node is populated, and its widget is the most recent node |
| Steps.RemoveDraggedEdges | src/node_container.rs:529-559 | removes exactly the carried edges and their connections |
| Steps.UpdateNodeToGraph | src/node_container.rs:479-492 | records the widget's corner as the node's location |
| Steps.UpdateDraggedNodeToGraph | src/node_container.rs:465-477 | only a dragged node's location is updated |
| Steps.DropNowhereStep | src/node_container.rs:325-331 | a drop on empty space follows its specification and keeps the list well-formed |
| Steps.DropOnSlot | src/node_container.rs:333-391 | a drop on a slot follows its specification and keeps the list well-formed |
| Steps.RebindToSlot | src/node_container.rs:339-391 | rebinding follows its specification, or fails when a carried edge is missing |
| Steps.RebindKeepsSlot | src/node_container.rs:339-391 | rebinding edges never changes which slot a handle names |
| Steps.SlotDropRebound | src/node_container.rs:333-391 | a drop on a slot rebinds onto the anchor of the slot's node |
| Steps.Dropped | src/node_container.rs:314-400 | a release follows the drop specification: nowhere, on a slot, or a fault on a node or edge |
| Container.NodeContainerState.constructor | src/node_container.rs:43-62 | nothing dragged, selected or pending, an empty scene and the default drag offset |
| Container.NodeContainerState.Press | src/node_container.rs:142-185 | a left press on a node or slot records the drag and offset; the pointer position is recorded |
| Container.NodeContainerState.Release | src/node_container.rs:186-205 | the last slot under the pointer becomes the drop target; the pointer position is recorded |
| Container.NodeContainerState.DeleteNode | src/node_container.rs:927-944 | the node's widgets and graph node are removed; handles stay distinct |
| Container.NodeContainerState.DeleteSelected | src/node_container.rs:207-212 | the selected node is deleted and the selection is cleared |
| Container.NodeContainerState.HandleAction | src/node_container.rs:139-217 | a right press aborts, changing nothing, exactly when the property menu cannot be opened for the node pressed; otherwise each action kind updates exactly its fields and keeps the others, the drag offset included; a Delete whose selection names no node widget leaves the scene unchanged; no action changes nothing |
| Container.NodeContainerState.HandleAddNode | src/node_container.rs:435-452 | a requested node is added and populated and becomes the dragged node; the request is cleared |
| Container.NodeContainerState.GrabSlotEdge | src/node_container.rs:591-640 | the children and carried edges become the grab's, or nothing changes on a fault |
| Container.NodeContainerState.HandleDraggedEntity | src/node_container.rs:278-312 | a dragged handle whose widget is gone stops the tick with `MissingWidget` and nothing changed; otherwise past the threshold the widget is disabled and dragging starts; then the node moves, the edges follow at the side they are free on, or a slot is grabbed; only a grab changes the free side |
| Container.NodeContainerState.BeginDrag | src/node_container.rs:279-295 | the margin read fails (`MissingWidget`, nothing changed) exactly when the dragged handle is not the placeholder 0 and names no child; otherwise dragging starts, and the widget is disabled, exactly when the pointer passes the threshold |
| Container.NodeContainerState.FollowDrag | src/node_container.rs:303-311 | the dragged node moves, the carried edges follow at the side they are free on, or a slot is grabbed; only a grab changes the free side |
| Container.NodeContainerState.ResetDragging | src/node_container.rs:402-409 | the dragged widget is re-enabled, dragging ends and the offset is reset |
| Container.NodeContainerState.HandleDroppedEntity | src/node_container.rs:314-400 | on release the drop is committed or cancelled, dragging ends, and the drop target is cleared |
| Container.NodeContainerState.SelectEntity | src/node_container.rs:415-433 | only the new node is highlighted and selected |
| Container.NodeContainerState.ResetMouseAction | src/node_container.rs:454-463 | a release selects what was dragged and ends the drag; the action is cleared |
| Container.NodeContainerState.LoadGraph | src/node_container.rs:1201-1207 | the scene is rebuilt from the read graph, or an unreadable file changes nothing |
| Container.NodeContainerState.HandleActionMain | src/node_container.rs:991-1005 | a load command rebuilds the scene; the command is always cleared |
| Container.NodeContainerState.Update | src/node_container.rs:64-75 | a completed tick clears every pending input, ends a released drag, and an idle tick changes nothing |
| Container.NodeContainerState.BeginTick | src/node_container.rs:66-69 | the action, the add-node request and the drag are handled, and a completed start clears the request; a right press the property menu cannot take aborts the tick with nothing changed; an idle tick changes nothing |
| Container.NodeContainerState.EndTick | src/node_container.rs:70-74 | on a release without a load, the scene becomes the drop's specification (after the dragged widget is re-enabled) followed by the reselection, the drag ends and the offset is reset; a tick without a release or a load changes nothing but the cleared inputs |
| Workspace.ActionOf | src/workspace.rs:127-144 | each pointer event records its action; a key event records Delete only for Delete going down |
| Workspace.PendingAfterConcat | src/workspace.rs:176-178 | running callbacks in two batches is running them in one |
| Workspace.PendingAfterIsLast | src/workspace.rs:176-178 | the pending action is that of the last recording event, or the old one |
| Workspace.SilentEventsKeep | src/workspace.rs:139-144 | events that record nothing (key releases and other keys) leave the pending action as it was |
| Workspace.DeleteReplacesPending | src/workspace.rs:139-144 | Delete going down replaces whatever was pending, whatever came before, and stays pending through later events that record nothing |
| Workspace.WorkspaceState.constructor | src/workspace.rs:150-156 | nothing pending and the menu closed |
| Workspace.WorkspaceState.AddNode | src/workspace.rs:172-174 | the request is recorded |
| Workspace.WorkspaceState.HandleEvent | src/workspace.rs:176-178 | the pending action becomes the event's action, when it has one |
| Workspace.WorkspaceState.HandleActionMain | src/workspace.rs:180-201 | the node-menu command opens the menu at its margin; the command is cleared |
| Workspace.WorkspaceState.PropagateAction | src/workspace.rs:203-214 | a request goes to the container first and closes the menu; otherwise the action goes and is cleared |
| Workspace.WorkspaceState.Update | src/workspace.rs:165-168 | the main-menu command is handled (the node-menu command sets the menu margin, any other keeps it), then the request or the action goes to the container |
| Workspace.TwoTicks | src/workspace.rs:203-214 | with a request and an action pending, two ticks deliver both to the container |

## Left out

- `sync_properties` and the node property menu (`init_menu_property`, `open_menu_property`, `close_menu_property`, `node_type_of_entity`): they set library node options from menu widgets. A right press on a node widget runs `open_menu_property`, which panics when the node is missing (the `unwrap` in `node_type_of_entity`) or is neither a Mix nor an Image node (the `todo!()`); the model returns `Abort(MissingNode)` or `Abort(NoPropertyMenu)` there. Any other right press only opens or closes that menu, so the model leaves the fields unchanged.
- `save_graph` and the SaveGraph command: file output through serde is I/O.
- `load_graph`'s file read and parse is the `FileReader` parameter.
- The widget templates, rendering, bounds and hit tests: the hit test is the `HitTest` parameter.
- The library graph's internals: node construction is the `NodeBuilder` parameter, `connect_arbitrary`'s acceptance rule is the `ConnectRule` parameter, and node ids are given by the builder.
- `ChangedEvent` pushes and the workspace's focus request and `node_container_entity` property: GUI notifications with no effect on the modelled state.
- Coordinates are modelled as `real`, not f64. The drag threshold is checked on squared distance, which is equivalent for exact reals but not for rounded floats.
- The layout constants `NODE_WIDTH`, `SLOT_SIZE`, `SLOT_SIZE_HALF` and `SLOT_SPACING` are known only to be positive; their values are defined outside this model.
- A node widget's `my_margin` property is taken to be the same as its `margin`.
- The menu child the container appends at init is not a child in the model; it has no node, slot or edge kind.
- Widget handles come from a counter and are never reused; the GUI's own handle allocation is not part of this model.
- `ActionMain`'s definition (src/shared.rs) is not part of this model beyond its three commands. The payload of `MenuNode` is dropped because the workspace ignores it.
- Container.NodeContainerState.LoadGraph: the selection is not cleared by a load, as in the source, so a stale selected handle may remain; `Valid()` still holds because no node is highlighted after a rebuild.
- Workspace.TwoTicks: does not interleave the container's own tick between the workspace's two ticks.
- Container.NodeContainerState.LoadGraph: follows the corrected rebuild `Repopulated`, in which each slot gets one widget. The source's `populate_workspace` runs `populate_slots` after `populate_nodes` and so creates every slot widget twice; that rebuild is `RepopulatedAsWritten` (see Findings).
- Container.NodeContainerState.HandleActionMain: a load follows the corrected rebuild `Repopulated`, as for `LoadGraph`.
- Populate.PopulateWorkspace: runs `populate_nodes` and `populate_edges` only, the corrected rebuild; the extra `populate_slots` pass of the source is modelled by `RepopulatedAsWritten`.
- Container.NodeContainerState.Update: ensures only the summary facts (the inputs are cleared on success, a released drag ends, an idle tick changes nothing). The state after a busy tick is given by the contracts of the steps it runs: `HandleAction`, `HandleAddNode`, `HandleDraggedEntity`, `HandleDroppedEntity`, `ResetMouseAction` and `HandleActionMain`.
- Container.NodeContainerState.BeginTick: ensures only the idle tick, the right-press abort and the cleared request; a busy tick is given by the contracts of `HandleAction`, `HandleAddNode` and `HandleDraggedEntity`.
- Container.NodeContainerState.EndTick: the state after a load is not stated here; `HandleActionMain` states it.
- CoreGraph.Connect and CoreGraph.RemoveNode: the library's `connect_arbitrary` is assumed either to add exactly the requested connection or to change nothing; it never replaces a connection into an occupied input. `remove_node` is assumed to drop the node and every connection touching it. `ContainerSpec.ReboundMeaning`'s "keeps all connections" rests on this. One consequence: edges picked up from input slot A and dropped on slot B leave their old connection into A in the graph, and no widget draws it.
- During an edge drag the dragged handle is the placeholder 0, which names no child of the container. The `enabled` writes of `handle_dragged_entity` and `reset_dragging` on that handle, and its margin read (the `outside` parameter), reach a widget outside the container; the model drops the writes. As a consequence a grabbed slot widget is disabled and never re-enabled (`ContainerSpec.GrabbedSlotStaysDisabled`).
- Concurrency and the GUI's scheduling of `update` calls: one tick runs to completion.

## Findings

| source | as written | input that shows it | evidently intended | confidence | as-written member | corrected member |
|---|---|---|---|---|---|---|
| src/node_container.rs:1007-1014 | `populate_workspace` runs `populate_nodes`, whose `populate_node` already creates each node's slot widgets, and then `populate_slots`, which creates them again | any graph whose first node shows a slot, for instance one `Mix` node with one input and one output and no recorded location: after loading, each of its two slots has two widgets | each slot of a loaded graph has exactly one widget | medium, not executed | Populate.RepopulatedAsWrittenDoubles | Populate.RepopulatedUniqueSlots |
