# RECT node editor: the graph model and what sits on it

This project models the core of the RECT node editor in Dafny and proves
properties of the model. A *scene* owns a list of *nodes* and a list of
*edges*. Every node owns input and output *sockets*, and an edge joins a
start socket to an end socket. The editor has two generations of this
graph:

- **Multi-edge graph** (`MultiEdgeGraph`, src/node_editor/core/components.py).
  - Every socket keeps the list of edges bound to it.
  - Assigning an edge's start or end rebinds it on both sockets.
  - Scenes, nodes, sockets and edges serialize to records and deserialize
    from them through an id table, with or without `restore` (taking over
    the recorded ids).
  - The scene's `modified` flag calls its listeners on a false-to-true
    change.
- **Single-edge graph** (`SingleEdgeGraph`, node_editor/core/components.py
  with node_editor/core/{scene,node,socket,edge}.py). Every socket holds at
  most one edge.

Three components sit on top:

- **Undo history** (`History`, node_editor/history/scene_history.py): at most
  32 stamps and a cursor. A stamp holds a scene record and the selected ids.
- **Clipboard** (`Clipboard`, node_editor/clipboard/scene_clipboard.py): save,
  cut, copy and paste over the multi-edge scene.
- **Interaction state machine** (`NodeView`, node_editor/node_view.py): edge
  dragging, the cut line and deletion, over the single-edge scene.

Supporting modules:

- `Kinds`: the mode, socket-position and edge-type codes.
- `Layout`: socket placement.
- `Records`: the serialized documents and Python's stable `list.sort`.
- `Lists`: `list.remove` and the related list lemmas.
- `Identity`: fresh ids.
- `Selection`: the selected items.
- `Wrappers`: `Option`.

Objects the source updates in place are Dafny classes with `modifies`
frames. Each scene carries ghost arenas (`NodeSet`, `SocketSet`,
`EdgeSet`) of everything ever created for it. `Valid` states the
structural invariants, and in the multi-edge graph that includes
socket/edge agreement: every socket lists each edge once per end of that
edge that is the socket. Exceptions the source raises (`KeyError`,
`ValueError`, `AttributeError`) become `bool` or `Option` results.

## Model

| member | source | states |
|---|---|---|
| Kinds.ModeCodesDistinct | node_editor/core/scene.py:4-8 | the four mode codes are 0..3, pairwise distinct, and each decodes back to its mode |
| Layout.SocketX | src/node_editor/core/components.py:183-184 | a socket's x is 0 on the left side and the node width on the right, for every index |
| Layout.SocketY | src/node_editor/core/components.py:186-191 | index 0 sits at height − edge − padding (bottom) or title + padding + edge (top); each further index moves 22 up or down |
| Layout.SocketsApart | node_editor/core/node.py:44-54 | two sockets on one side coincide iff their indices are equal; their vertical distance is 22 × the index difference |
| Layout.DefaultPlacement | src/node_editor/presentation/components.py:92-98 | with the widget's 180×240 geometry, inputs start at (0, 226) and outputs at (180, 38) |
| Records.SortKeyOrder | src/node_editor/core/components.py:238-239 | for indices in 0..9999 the key `index + position*10000` orders by position, then index, and is injective |
| Records.SortByPermutes | src/node_editor/core/components.py:238-239 | the socket-record sort is a permutation |
| Records.SortBySorted | src/node_editor/core/components.py:238-239 | the sorted records ascend by key |
| Records.SortStable | node_editor/core/components.py:191-192 | sorting keeps the relative order of records sharing a key (Python's sort is stable) |
| Records.SortSorted | node_editor/core/components.py:191-192 | sorting an already sorted list leaves it unchanged |
| Identity.IdSource.Fresh | serialization/serializable.py:3-4 | each new object gets the next id, distinct from all earlier ones |
| Lists.EraseAt | src/node_editor/core/components.py:305-307 | `list.remove` of a present value drops exactly its first occurrence and closes the gap |
| Lists.VisitedEvens | src/node_editor/core/components.py:201-203 | a `for` loop that removes each visited element from a list without repetitions reaches exactly the elements at positions 0, 2, 4, ... |
| MultiEdgeGraph.EnterLast | src/node_editor/core/components.py:332 | after the table is filled from socket records, each id names the socket of its last record |
| MultiEdgeGraph.Scene.constructor | src/node_editor/core/components.py:15-25 | a new scene is valid, empty, 64000×64000, mode NONE, unmodified, no listeners |
| MultiEdgeGraph.Scene.Agreement | src/node_editor/core/components.py:359-377 | in a valid scene a socket lists an edge exactly as many times as the edge has ends there; listed iff an end |
| MultiEdgeGraph.Scene.SetModified | src/node_editor/core/components.py:34-41 | the listeners are called once each, in order, exactly on a false-to-true change; the flag ends as assigned; validity is kept |
| MultiEdgeGraph.Scene.Observe | src/node_editor/core/components.py:43-44 | the listener is appended |
| MultiEdgeGraph.Scene.RemoveObserver | src/node_editor/core/components.py:46-47 | `ok` iff the listener was registered; its first occurrence is dropped, else the list is unchanged |
| MultiEdgeGraph.Scene.RemoveObservers | src/node_editor/core/components.py:49-50 | no listener is left |
| MultiEdgeGraph.Scene.AddNode | src/node_editor/core/components.py:56-57 | the node is appended, nothing else changes |
| MultiEdgeGraph.Scene.AddEdge | src/node_editor/core/components.py:59-60 | the edge is appended, nothing else changes |
| MultiEdgeGraph.Scene.RemoveNode | src/node_editor/core/components.py:62-66 | `found` iff listed; the first occurrence is dropped, an absent node leaves the list unchanged |
| MultiEdgeGraph.Scene.RemoveEdge | src/node_editor/core/components.py:68-72 | `found` iff listed; the first occurrence is dropped, an absent edge leaves the list unchanged |
| MultiEdgeGraph.Scene.Clear | src/node_editor/core/components.py:117-120 | the loop ends with no nodes, the flag false and no listener called; every socket of a removed node has no edges and no remaining edge ends at one |
| MultiEdgeGraph.Scene.RemoveListed | src/node_editor/core/components.py:202-203 | the listed edge leaves the scene and every socket loses every listing of it, the rest kept in order |
| MultiEdgeGraph.Scene.Doc | src/node_editor/core/components.py:87-100 | a scene record exists iff every edge has both ends |
| MultiEdgeGraph.Scene.Serialize | src/node_editor/core/components.py:87-100 | the two append loops produce exactly `Doc()` |
| MultiEdgeGraph.Scene.Deserialize | src/node_editor/core/components.py:102-115 | the scene is valid, cleared and re-headed (id only with `restore`); its nodes serialize to the records (sockets sorted, ids restamped without `restore`); `ok` iff every edge record resolves, and then the new edges serialize to their records; with `ok`, with or without `restore`, each new edge joins exactly the two sockets the node loop left named in the table under its record's ends (`EdgesJoin`) |
| MultiEdgeGraph.Scene.Reset | src/node_editor/core/components.py:103-109 | after `clear` and the header the scene has no nodes and the record's header |
| MultiEdgeGraph.Scene.Populate | src/node_editor/core/components.py:110-115 | the node loop then the edge loop load exactly the records, as in `Deserialize`; with `ok` each new edge joins the sockets the node records name under its ends (`EdgesJoin`) |
| MultiEdgeGraph.Scene.SetHeader | src/node_editor/core/components.py:105-109 | id from the record only with `restore`; width and height always |
| MultiEdgeGraph.Scene.LoadNodes | src/node_editor/core/components.py:111-112 | the new nodes serialize to their records, and the table is exactly the one made by entering each new node and then its sorted inputs and outputs under their records' ids, in order, into an empty table (`Tabled`): the last entry of an id wins |
| MultiEdgeGraph.Scene.LoadNode | src/node_editor/core/components.py:112 | one fresh node is appended whose record is the input one (sorted, restamped); the table is the input one with exactly this node and its sockets entered under their records' ids (`Entered`) |
| MultiEdgeGraph.Scene.NewBlankNode | src/node_editor/core/components.py:128-144 | `Node(self)` appends one fresh node with no sockets |
| MultiEdgeGraph.Scene.LoadEdges | src/node_editor/core/components.py:114-115 | the nodes are untouched and the edges listed before stay in front; `ok` iff every record resolves, and then the last edges serialize to the records and each joins exactly the sockets the table names under its record's ends (`Joined`) |
| MultiEdgeGraph.Scene.JoinEdges | src/node_editor/core/components.py:113-115 | the edge loop against the table the node loop built: `ok` iff every record resolves, and then each new edge joins the sockets the nodes' records name under its ends, and the nodes are unchanged |
| MultiEdgeGraph.BuiltNamesInput | src/node_editor/core/components.py:230-247 | after the node loop, an id whose last carrier is input `j` (sorted) of node `i` names exactly that socket in the table |
| MultiEdgeGraph.BuiltNamesOutput | src/node_editor/core/components.py:230-256 | after the node loop, an id whose last carrier is output `j` (sorted) of node `i` names exactly that socket in the table |
| MultiEdgeGraph.Scene.LoadEdge | src/node_editor/core/components.py:115 | a fresh edge is appended; `ok` iff both ends name sockets, and then it joins those sockets |
| MultiEdgeGraph.Node.constructor | src/node_editor/core/components.py:128-144 | the node is appended once, keeps its title and gets one fresh socket per requested type |
| MultiEdgeGraph.Node.InitSockets | src/node_editor/core/components.py:146-162 | inputs get indices 0..n-1 at LEFT_BOTTOM, single-edge; outputs 0..m-1 at RIGHT_TOP, multi-edge; all fresh with empty lists |
| MultiEdgeGraph.Node.InitInputs | src/node_editor/core/components.py:147-154 | the input loop lays out one single-edge LEFT_BOTTOM socket per type, counting from 0 |
| MultiEdgeGraph.Node.InitOutputs | src/node_editor/core/components.py:155-162 | the output loop lays out one multi-edge RIGHT_TOP socket per type, counting from 0 |
| MultiEdgeGraph.Node.Remove | src/node_editor/core/components.py:200-207 | corrected removal: the node leaves the list, every socket of the node ends with no edges, and exactly the edges at its sockets leave the scene |
| MultiEdgeGraph.Node.LeaveScene | src/node_editor/core/components.py:207 | the node's first listing is dropped |
| MultiEdgeGraph.Node.RemoveVisited | src/node_editor/core/components.py:201-203 | as written, the inner loop removes exactly `Visited(socket.edges, 0)` (every other edge) and nothing else |
| MultiEdgeGraph.Node.RemoveAsWritten | src/node_editor/core/components.py:200-207 | as written: the node leaves the list, and exactly the edges the loops reach leave the scene |
| MultiEdgeGraph.Node.Serialize | src/node_editor/core/components.py:209-224 | the append loops produce exactly the node's record |
| MultiEdgeGraph.Node.Deserialize | src/node_editor/core/components.py:226-259 | the node serializes to the record with sockets sorted by key (ids kept only with `restore`); the table gains the node and socket ids; the socket arena grows by exactly the new sockets |
| MultiEdgeGraph.Node.SetHeader | src/node_editor/core/components.py:228-232 | id only with `restore`; title and position always |
| MultiEdgeGraph.Node.SetPos | src/node_editor/core/components.py:180-181 | the position reads back as set |
| MultiEdgeGraph.Node.SetMode | src/node_editor/core/components.py:164-165 | the scene's mode becomes `mode` |
| MultiEdgeGraph.Node.AppendInput | src/node_editor/core/components.py:154 | the socket is appended to the inputs and the scene stays valid |
| MultiEdgeGraph.Node.AppendOutput | src/node_editor/core/components.py:162 | the socket is appended to the outputs and the scene stays valid |
| MultiEdgeGraph.Node.LoadSockets | src/node_editor/core/components.py:234-257 | both lists are rebuilt and serialize to the (sorted) records, restamped without `restore` |
| MultiEdgeGraph.Node.LoadInputs | src/node_editor/core/components.py:241-248 | the input loop's sockets serialize to the records in order |
| MultiEdgeGraph.Node.LoadOutputs | src/node_editor/core/components.py:250-257 | the output loop's sockets serialize to the records in order |
| MultiEdgeGraph.Node.LoadInput | src/node_editor/core/components.py:242-248 | one socket whose record is the input one (restamped) is appended |
| MultiEdgeGraph.Node.LoadOutput | src/node_editor/core/components.py:251-257 | one socket whose record is the input one (restamped) is appended |
| MultiEdgeGraph.Node.NewSocket | src/node_editor/core/components.py:288-297 | a fresh socket of this node with the next id and no edges |
| MultiEdgeGraph.Socket.constructor | src/node_editor/core/components.py:288-297 | a new socket keeps its node, index, position, type and flag and has no edges |
| MultiEdgeGraph.Socket.AddEdge | src/node_editor/core/components.py:302-303 | the edge is appended |
| MultiEdgeGraph.Socket.RemoveEdge | src/node_editor/core/components.py:305-309 | `found` iff listed; the first listing is dropped, else nothing changes |
| MultiEdgeGraph.Socket.RemoveEdges | src/node_editor/core/components.py:311-314 | the list ends empty, exactly its edges leave the scene, and other sockets lose only listings of those edges |
| MultiEdgeGraph.Socket.Deserialized | src/node_editor/core/components.py:328-333 | the socket serializes to the record, with the record's id only under `restore` |
| MultiEdgeGraph.Edge.constructor | src/node_editor/core/components.py:340-353 | the edge is appended, joins its given ends and is listed by them |
| MultiEdgeGraph.Edge.Attach | src/node_editor/core/components.py:351-352 | both setters bind the new ends; exactly those sockets gain a listing |
| MultiEdgeGraph.Edge.Register | src/node_editor/core/components.py:349 | the edge is appended and enters the arena |
| MultiEdgeGraph.Edge.SetStart | src/node_editor/core/components.py:359-365 | the old start drops one listing and the new one appends the edge; agreement is kept |
| MultiEdgeGraph.Edge.ReleaseStart | src/node_editor/core/components.py:361-363 | the old start drops its first listing of the edge; no other socket changes |
| MultiEdgeGraph.Edge.BindStart | src/node_editor/core/components.py:363-365 | the new start appends the edge; no other socket changes |
| MultiEdgeGraph.Edge.SetEnd | src/node_editor/core/components.py:371-377 | the old end drops one listing and the new one appends the edge; agreement is kept |
| MultiEdgeGraph.Edge.ReleaseEnd | src/node_editor/core/components.py:373-375 | the old end drops its first listing of the edge |
| MultiEdgeGraph.Edge.BindEnd | src/node_editor/core/components.py:375-377 | the new end appends the edge |
| MultiEdgeGraph.UnbindDropsAll | src/node_editor/core/components.py:415-417 | releasing both ends drops every listing of the edge and keeps the rest in order |
| MultiEdgeGraph.Edge.UnbindAll | src/node_editor/core/components.py:415-417 | both ends unset; every socket's list loses every listing of the edge |
| MultiEdgeGraph.Edge.Remove | src/node_editor/core/components.py:420-427 | unbound, no socket lists it, and the first listing in the scene is dropped (absent: unchanged) |
| MultiEdgeGraph.Edge.SetEdgeType | src/node_editor/core/components.py:383-386 | the type is set |
| MultiEdgeGraph.Edge.Doc | src/node_editor/core/components.py:429-435 | a record exists iff both ends are set, and it names them by id |
| MultiEdgeGraph.Edge.Positions | src/node_editor/core/components.py:392-408 | source = start's scene position; dest = end's, or the source while dangling; nothing without a start |
| MultiEdgeGraph.Edge.ResolveStart | src/node_editor/core/components.py:440 | `ok` iff the key names a socket; a missing key changes nothing |
| MultiEdgeGraph.Edge.ResolveEnd | src/node_editor/core/components.py:441 | `ok` iff the key names a socket; a missing key changes nothing |
| MultiEdgeGraph.Edge.Deserialize | src/node_editor/core/components.py:437-442 | id only with `restore`; `ok` iff both ends name sockets, then the ends are those sockets and, with `restore`, the edge serializes to the record |
| MultiEdgeGraph.Edge.SetId | src/node_editor/core/components.py:438-439 | the id is set |
| MultiEdgeGraph.Edge.Relink | src/node_editor/core/components.py:440-442 | `ok` iff both keys name sockets, and then the ends are those sockets |
| MultiEdgeGraph.Edge.RelinkEnd | src/node_editor/core/components.py:441-442 | `ok` iff the end key names a socket, and then the end is it |
| MultiEdgeGraph.EnterEntries | src/node_editor/core/components.py:332 | entering socket records adds exactly their ids, each naming a socket; other keys keep their entries |
| MultiEdgeGraph.KindAfterSocket | src/node_editor/core/components.py:230 | an id no node record uses names a socket iff some node record lists a socket with it |
| MultiEdgeGraph.IdsSorted | src/node_editor/core/components.py:238-239 | sorting socket records keeps their ids |
| MultiEdgeGraph.NodeLoadedRestore | src/node_editor/core/components.py:226-257 | with `restore` a node comes back as its record, up to the content id and the sorted socket order |
| MultiEdgeGraph.RestampedRestore | src/node_editor/core/components.py:328-330 | with `restore` socket records come back unchanged |
| MultiEdgeGraph.RebindCount | src/node_editor/core/components.py:359-377 | moving one end changes each socket's count of the edge by exactly the ends it lost or gained |
| MultiEdgeGraph.EdgeDocs | src/node_editor/core/components.py:91-92 | the records exist iff every edge has both ends, one per edge, in order |
| SingleEdgeGraph.Scene.constructor | node_editor/core/scene.py:12-17 | a new scene is valid and anchored, empty, 64000×64000, mode NONE |
| SingleEdgeGraph.Scene.AddNode | node_editor/core/scene.py:23-24 | the node is appended |
| SingleEdgeGraph.Scene.AddEdge | node_editor/core/scene.py:26-27 | the edge is appended |
| SingleEdgeGraph.Scene.RemoveNode | node_editor/core/scene.py:29-30 | `found` (no ValueError) iff listed; the first occurrence is dropped, else unchanged |
| SingleEdgeGraph.Scene.RemoveEdge | node_editor/core/scene.py:32-33 | `found` (no ValueError) iff listed; the first occurrence is dropped, else unchanged |
| SingleEdgeGraph.Scene.Clear | node_editor/core/components.py:76-78 | the loop ends with no nodes; edges only leave; when anchored, no socket of a removed node holds an edge; when every end of an edge holds it (`Mutual`), that stays so and every edge a socket of a removed node held has left |
| SingleEdgeGraph.Scene.Doc | node_editor/core/components.py:48-61 | a record exists iff every edge has both ends, and it carries the header and both lists |
| SingleEdgeGraph.Scene.Serialize | node_editor/core/components.py:48-61 | the append loops produce exactly `Doc()` |
| SingleEdgeGraph.Scene.Deserialize | node_editor/core/components.py:63-74 | cleared, id kept, size taken; nodes serialize to their records (sockets sorted, ids restored); `ok` iff every edge record resolves, then the edges serialize to theirs, each joins the sockets the node records name under its ends (`EdgesJoin`), and every new socket holds the edge of the last record whose start or end names it, or none (`Holder`); anchoring is kept |
| SingleEdgeGraph.Scene.Reset | node_editor/core/components.py:64-68 | no nodes, the record's size; anchoring is kept |
| SingleEdgeGraph.Scene.Reload | node_editor/core/components.py:69-74 | as `Deserialize` after the clear: nodes load their records, `ok` iff every edge record resolves, and then every socket created holds the edge of the last record binding it (`HeldNew`); anchoring is kept |
| SingleEdgeGraph.Scene.Populate | node_editor/core/components.py:69-74 | the nodes load exactly their records and `ok` tells whether every edge was read; on success each edge joins the sockets `EdgesJoin` names; whether or not it succeeds, every socket holds what `Holder` gives for the records read, starting from what it held before (`Held`); anchoring is kept |
| SingleEdgeGraph.Scene.LoadTable | node_editor/core/components.py:69-71 | the node loop on a cleared scene: the nodes load their records, the table is `Table` of them, old sockets keep their edge and new ones hold none; anchoring is kept |
| SingleEdgeGraph.Scene.LoadNodes | node_editor/core/components.py:70-71 | the new nodes serialize to their records, and the table is exactly the one the nodes build in order (`Tabled`/`Built`) |
| SingleEdgeGraph.Scene.LoadNode | node_editor/core/components.py:71 | one fresh node whose record is the input one is appended, and the table grows by exactly `Entered` |
| SingleEdgeGraph.Scene.LoadEdges | node_editor/core/components.py:73-74 | the edges listed before stay in front; `ok` iff every record resolves, then the last edges serialize to the records and each joins the sockets the table names under its ends (`Joined`); every socket holds the edge of the last record read that binds it, else what it held (`Held`), also after a failed lookup; anchoring is kept |
| SingleEdgeGraph.Scene.JoinEdges | node_editor/core/components.py:72-74 | the edge loop against the table the node loop built: `ok` iff every record resolves, and then each new edge joins the sockets the node records name under its ends; the nodes, their records and the table are untouched; sockets as in `LoadEdges` (`Held`); anchoring is kept |
| SingleEdgeGraph.BuiltNamesInput | node_editor/core/components.py:182-200 | after the node loop, an id whose last carrier is input `j` (sorted) of node `i` names exactly that socket in the table |
| SingleEdgeGraph.BuiltNamesOutput | node_editor/core/components.py:182-208 | after the node loop, an id whose last carrier is output `j` (sorted) of node `i` names exactly that socket in the table |
| SingleEdgeGraph.Scene.LoadEdge | node_editor/core/components.py:74 | a fresh edge appended; `ok` iff both ends name sockets, and then it joins exactly those two sockets; each socket the setters reach holds the new edge and every other keeps its edge; anchoring is kept |
| SingleEdgeGraph.HolderUnbound | node_editor/core/components.py:299-313 | a socket no edge record binds keeps the edge it held |
| SingleEdgeGraph.HolderLast | node_editor/core/components.py:299-313 | a socket bound by record `i` and by no later record holds the edge made from record `i` |
| SingleEdgeGraph.Node.constructor | node_editor/core/node.py:8-32 | the node is appended once and gets one fresh socket per type |
| SingleEdgeGraph.Node.InitSockets | node_editor/core/components.py:103-117 | inputs 0..n-1 at LEFT_BOTTOM, outputs 0..m-1 at RIGHT_TOP, all fresh with no edge |
| SingleEdgeGraph.Node.InitInputs | node_editor/core/node.py:20-25 | the counter loop lays out one LEFT_BOTTOM socket per type from 0 |
| SingleEdgeGraph.Node.InitOutputs | node_editor/core/node.py:27-32 | the counter loop lays out one RIGHT_TOP socket per type from 0 |
| SingleEdgeGraph.Node.NewSocket | node_editor/core/socket.py:12-19 | a fresh socket with the next id and no edge |
| SingleEdgeGraph.Node.SetMode | node_editor/core/node.py:34-35 | the scene's mode becomes `mode` |
| SingleEdgeGraph.Node.SetPos | node_editor/core/node.py:41-42 | the position reads back as set |
| SingleEdgeGraph.Node.Remove | node_editor/core/node.py:61-67 | `found` iff listed; the node leaves the list; edges only leave, and every edge not held by the node stays; when anchored no socket of the node holds an edge and anchoring is kept; when every end of an edge also holds it (`Mutual`), that is kept, every edge the node held leaves, and so does every edge a socket stopped holding |
| SingleEdgeGraph.Node.ReleaseSockets | node_editor/core/node.py:62-64 | the socket loop: the node list is untouched; edges only leave, each edge not held by the node stays; anchoring is kept and leaves the node's sockets empty; under `Mutual` every edge the node held leaves |
| SingleEdgeGraph.Node.ReleaseSocket | node_editor/core/node.py:62-64 | the socket's edge, if any, is removed; under anchoring the socket ends empty; under `Mutual` that is kept and every edge a socket stopped holding has left the list |
| SingleEdgeGraph.Node.Serialize | node_editor/core/components.py:163-178 | the append loops produce exactly the node's record |
| SingleEdgeGraph.Node.Deserialize | node_editor/core/components.py:180-210 | the node serializes to the record with sockets sorted by key; the table gains the node and its sockets |
| SingleEdgeGraph.Node.LoadSockets | node_editor/core/components.py:186-208 | both lists rebuilt, serializing to the sorted records |
| SingleEdgeGraph.Node.LoadInputs | node_editor/core/components.py:194-200 | the input loop's sockets serialize to the records |
| SingleEdgeGraph.Node.LoadOutputs | node_editor/core/components.py:202-208 | the output loop's sockets serialize to the records |
| SingleEdgeGraph.Node.LoadInput | node_editor/core/components.py:195-200 | one socket whose record is the input one is appended |
| SingleEdgeGraph.Node.LoadOutput | node_editor/core/components.py:203-208 | one socket whose record is the input one is appended |
| SingleEdgeGraph.Socket.constructor | node_editor/core/socket.py:12-19 | a new socket keeps its fields and holds no edge |
| SingleEdgeGraph.Socket.Deserialized | node_editor/core/components.py:269-272 | the socket takes the record's id and serializes back to the record |
| SingleEdgeGraph.Socket.BindEdge | node_editor/core/socket.py:24-25 | the socket holds exactly the given edge (none clears it) |
| SingleEdgeGraph.Edge.constructor | node_editor/core/components.py:279-293 | appended; each given end holds the edge; anchoring is kept |
| SingleEdgeGraph.Edge.Register | node_editor/core/components.py:289 | appended and in the arena; no socket holds it |
| SingleEdgeGraph.Edge.SetStart | node_editor/core/components.py:299-303 | only the new start changes (it holds the edge); the old start keeps holding it, breaking anchoring exactly then |
| SingleEdgeGraph.Edge.SetEnd | node_editor/core/components.py:309-313 | only the new end changes; the old end keeps holding the edge |
| SingleEdgeGraph.Edge.AssignStart | node_editor/node_view.py:167 | a plain attribute assignment changes no socket; anchoring survives when there was no start or it was `v` |
| SingleEdgeGraph.Edge.AssignEnd | node_editor/node_view.py:168 | a plain attribute assignment changes no socket |
| SingleEdgeGraph.Edge.UnbindAll | node_editor/core/edge.py:47-53 | both current ends are cleared even if they hold another edge; both ends unset; anchoring kept; under `Mutual` that is kept and every socket it cleared held this edge |
| SingleEdgeGraph.Edge.Remove | node_editor/core/edge.py:56-63 | unbound as above, then the first listing dropped (absent: unchanged, the ValueError swallowed); anchoring and `Mutual` are kept, and under `Mutual` the edge a socket stopped holding has left the list |
| SingleEdgeGraph.Edge.Doc | node_editor/core/components.py:369-375 | a record exists iff both ends are set, naming them by id |
| SingleEdgeGraph.Edge.Positions | node_editor/core/edge.py:27-40 | source = start socket offset + node position; dest = the end's, or the source while dangling |
| SingleEdgeGraph.Edge.Deserialize | node_editor/core/components.py:377-381 | id from the record; `ok` iff both ends name sockets, then the ends are those, both hold the edge, and the edge serializes to the record; a start that names no socket leaves both ends; an end that names none leaves the start set and holding the edge; exactly the sockets the setters reach hold the edge, every other keeps its edge; an edge with no ends keeps anchoring |
| SingleEdgeGraph.EnterEntries | node_editor/core/components.py:271 | entering socket records adds exactly their ids, each naming a socket |
| SingleEdgeGraph.IdsSorted | node_editor/core/components.py:191-192 | sorting socket records keeps their ids |
| SingleEdgeGraph.EdgeDocs | node_editor/core/components.py:52-53 | the records exist iff every edge has both ends |
| History.Room | node_editor/history/scene_history.py:28-33 | the history up to the cursor, less the oldest stamp when full; the cursor names its last stamp and there is room for one more |
| History.Pushed | node_editor/history/scene_history.py:25-37 | after store the bounds hold, the cursor is on the last stamp, which is the new one, and everything up to the old cursor (less the oldest when full) precedes it |
| History.UndoRedoInverse | node_editor/history/scene_history.py:12-20 | undo then redo and redo then undo return to the same cursor; at the ends they are no-ops; bounds kept |
| History.UndoThenStoreRedoIsNoop | node_editor/history/scene_history.py:17-29 | after undo then store, redo is a no-op |
| History.StoresKeepRecent | node_editor/history/scene_history.py:25-37 | from a new history any run of stores keeps exactly the last 32 stamps in order, cursor on the last |
| History.FortyStoresLeaveThirtyTwo | node_editor/history/scene_history.py:31-33 | forty stores leave exactly stamps 8..39 |
| History.FirstOnlyFlags | node_editor/history/scene_history.py:60-67 | as written only the first item gets a flag, set iff the last selected id is its id |
| History.ReselectedFlags | node_editor/history/scene_history.py:60-67 | as intended every item gets a flag, set iff its id was recorded |
| History.RestoreSelectionCounterexample | node_editor/history/scene_history.py:60-63 | two selected edges: as written the first ends deselected and the second untouched; intended, both selected |
| History.StampOf | node_editor/history/scene_history.py:39-55 | a stamp exists iff every edge has both ends; it holds the scene record and the selected ids in order |
| History.MarkEdges | node_editor/history/scene_history.py:60-63 | the intended edge loop marks each edge with whether its id was recorded |
| History.MarkNodes | node_editor/history/scene_history.py:64-67 | the intended node loop marks each node likewise |
| History.SceneHistory.constructor | node_editor/history/scene_history.py:6-10 | empty stack, cursor −1, bounds hold |
| History.SceneHistory.Undo | node_editor/history/scene_history.py:12-15 | stack unchanged; cursor moves back iff above 0 and then the scene is restored from that stamp |
| History.SceneHistory.Redo | node_editor/history/scene_history.py:17-20 | stack unchanged; cursor moves on iff below the top and then the scene is restored |
| History.SceneHistory.Restore | node_editor/history/scene_history.py:22-23 | the scene is restored from the stamp under the cursor |
| History.SceneHistory.Store | node_editor/history/scene_history.py:25-37 | the flag is set first (listeners on false-to-true); `ok` iff the stamp exists, then the stack is `Pushed`, else only `Room` was made |
| History.SceneHistory.PushStamp | node_editor/history/scene_history.py:28-37 | room is made, then the current scene's stamp goes on top if it exists |
| History.SceneHistory.MakeRoom | node_editor/history/scene_history.py:28-33 | the stack and cursor become `Room` of the old ones |
| History.SceneHistory.Push | node_editor/history/scene_history.py:36-37 | the stamp is appended and the cursor names it |
| History.SceneHistory.CreateStamp | node_editor/history/scene_history.py:39-55 | returns exactly the scene's current stamp |
| History.SceneHistory.RestoreStamp | node_editor/history/scene_history.py:57-67 | the scene is reloaded from the snapshot with `restore`; after a full read each item's flag says whether its id was recorded |
| History.SceneHistory.Reselect | node_editor/history/scene_history.py:60-67 | intended loops: every edge and node is marked by membership of its id; the loaded scene is kept |
| History.SceneHistory.ReselectAsWritten | node_editor/history/scene_history.py:60-67 | as written: only the first edge and first node are assigned, once per selected id |
| Selection.SelectedIds | node_editor/history/scene_history.py:45-49 | the ids of the selected nodes and edges, each in selection order |
| Clipboard.MapKeysMembers | node_editor/clipboard/scene_clipboard.py:20-21 | an id is a key of `socket_map` iff some saved node has a socket with it |
| Clipboard.Kept | node_editor/clipboard/scene_clipboard.py:25-28 | the filter raises iff some selected edge has a missing end it reads |
| Clipboard.KeptRecords | node_editor/clipboard/scene_clipboard.py:25-28 | every kept record has both ends among the keys and is a selected edge's record; every edge with both ends among them is kept |
| Clipboard.KeyedEdgesResolve | node_editor/clipboard/scene_clipboard.py:88-91 | edge records whose ends are saved socket ids resolve against the saved node records (when no node id equals an end id) |
| Clipboard.SavedEdgesResolve | node_editor/clipboard/scene_clipboard.py:13-33 | every edge `_save` keeps resolves when its document is pasted |
| Clipboard.BoxOf | node_editor/clipboard/scene_clipboard.py:64-74 | the box contains the origin and every node's position |
| Clipboard.BoxTight | node_editor/clipboard/scene_clipboard.py:64-74 | each bound is 0 or some node's coordinate |
| Clipboard.Bounds | node_editor/clipboard/scene_clipboard.py:64-74 | the min/max loop computes `BoxOf` |
| Clipboard.Offset | node_editor/clipboard/scene_clipboard.py:75-79 | the moved box is centred on the cursor |
| Clipboard.SaveNodes | node_editor/clipboard/scene_clipboard.py:15-23 | the node loop yields the selected nodes' records, the selected edges and the keys of `socket_map` |
| Clipboard.Save | node_editor/clipboard/scene_clipboard.py:13-33 | `_save` returns the selection's document (`ClipOf`), none where it raises |
| Clipboard.Copy | node_editor/clipboard/scene_clipboard.py:42-44 | the document of the selection as it stood; nothing changes |
| Clipboard.KeepEdges | node_editor/clipboard/scene_clipboard.py:25-28 | the edge loop computes `Kept` |
| Clipboard.SceneClipboard.constructor | node_editor/clipboard/scene_clipboard.py:9-11 | the clipboard is bound to the scene and its history |
| Clipboard.SceneClipboard.DeleteItem | node_editor/node_view.py:226-230 | exactly the picked node leaves the node list; exactly the edges the pick detaches (a picked edge, or every edge at a picked node's sockets) leave the edge list and every socket's list |
| Clipboard.SceneClipboard.DeleteSelected | node_editor/node_view.py:225-230 | exactly the unselected nodes remain; exactly the edges the selection detaches leave the edge list and every socket's list, the rest stay |
| Clipboard.SceneClipboard.Cut | node_editor/clipboard/scene_clipboard.py:35-40 | corrected `cut`: the clip is the selection's document; if saving raises nothing changes, else exactly the selected nodes and the edges they detach are gone, the scene is modified and one stamp is pushed iff it exists |
| Clipboard.SceneClipboard.CutAsWritten | node_editor/clipboard/scene_clipboard.py:35-40 | as written: `_save` makes the document, then the delete call raises AttributeError, so nothing is deleted or stored |
| Clipboard.SceneClipboard.PasteNode | node_editor/clipboard/scene_clipboard.py:81-86 | one fresh node: its record without `restore`, moved by the offset; the table grows |
| Clipboard.SceneClipboard.PasteNodes | node_editor/clipboard/scene_clipboard.py:81-86 | the new nodes follow the old ones, each its record moved by the offset |
| Clipboard.SceneClipboard.Paste | node_editor/clipboard/scene_clipboard.py:46-94 | refused (nothing changes) iff no parse or no `nodes`; else nodes are placed around the cursor; pasted iff `edges` exists, every edge resolves and a stamp exists, and then the edges are read and one stamp pushed; each pasted edge joins the pasted sockets its record's ends name (`EdgesJoin`); the edges listed before stay in front; on a raise the history is unchanged, or only made room in when the stamp failed |
| Clipboard.SceneClipboard.PasteItems | node_editor/clipboard/scene_clipboard.py:58-94 | nodes placed by `Offset(BoxOf(recs), cursor)`; pasted iff edges resolve and the stamp exists, and then each new edge joins the pasted sockets its ends name; the edges listed before stay in front; on a raise the history is unchanged, or only made room in when the stamp failed |
| Clipboard.SceneClipboard.PasteEdges | node_editor/clipboard/scene_clipboard.py:88-94 | a missing `edges` key raises; pasted iff every edge resolves and the stamp exists, and then each new edge joins the sockets the table names; pasted nodes stay placed and earlier edges stay in front; on a raise the history is unchanged, or only made room in when the stamp failed |
| Clipboard.SceneClipboard.PasteEdgeList | node_editor/clipboard/scene_clipboard.py:88-94 | with an `edges` key: pasted iff every edge resolves and the stamp exists; an unresolved edge raises with the history unchanged, a failed stamp leaves only the room made |
| Clipboard.SceneClipboard.LoadPasted | node_editor/clipboard/scene_clipboard.py:88-91 | `ok` iff every edge record resolves against the pasted nodes, which stay placed; earlier edges stay in front, and on success each new edge joins the sockets the table names |
| Clipboard.SceneClipboard.StorePasted | node_editor/clipboard/scene_clipboard.py:93-94 | the scene is marked modified and the stamp pushed iff it exists; nodes and edges unchanged |
| NodeView.UncutMembers | node_editor/node_view.py:143-145 | an edge survives a segment iff the segment does not cross it |
| NodeView.CutAlongMembers | node_editor/node_view.py:139-145 | an edge survives the cut line iff none of its n−1 segments crosses it |
| NodeView.SweepKeeps | node_editor/node_view.py:143-145 | the as-written sweep never removes an uncrossed edge |
| NodeView.SweepSkipsNext | node_editor/node_view.py:143-145 | as written, the edge right after a removed one survives even if crossed |
| NodeView.View.constructor | node_editor/node_view.py:13-30 | not dragging, empty cut line |
| NodeView.View.LeftMouseButtonPress | node_editor/node_view.py:84-103 | socket press in NONE starts a drag, with the fresh drag edge appended and held by the socket; a press in EDGE_DRAG ends it, with exactly the edge removals and socket bindings of `_edgeDragEnd`; Ctrl-press on nothing enters EDGE_CUT; the press point is recorded |
| NodeView.View.BeginCutLine | node_editor/node_view.py:105-110 | the mode becomes EDGE_CUT |
| NodeView.View.LeftMouseButtonRelease | node_editor/node_view.py:115-130 | in EDGE_DRAG a release ends the drag iff its squared distance is ≥ 10, with exactly the edge removals and socket bindings of `_edgeDragEnd`; in EDGE_CUT it ends the cut line |
| NodeView.View.EdgeDragStart | node_editor/node_view.py:147-152 | remembers the socket's edge and the socket; a fresh dangling Bezier edge starts there and the socket holds it |
| NodeView.View.EdgeDragEnd | node_editor/node_view.py:154-180 | mode NONE always; success iff released on another socket, then the drag edge joins both sockets, exactly the target's old edge and the previous edge leave the list, and only their end sockets are cleared; else exactly the drag edge leaves and the start socket holds its previous edge again |
| NodeView.View.ReplaceEdges | node_editor/node_view.py:162-165 | exactly the target's edge and the previous edge leave the scene; exactly their end sockets are cleared |
| NodeView.View.Connect | node_editor/node_view.py:167-171 | the drag edge runs from the start socket to the target, both holding it |
| NodeView.View.AbandonDrag | node_editor/node_view.py:174-180 | corrected failure path: exactly the drag edge leaves the list, its end sockets are cleared, and the start socket holds its previous edge again; anchoring kept |
| NodeView.View.AbandonDragAsWritten | node_editor/node_view.py:174-180 | as written: the previous edge is rebound on its own start; raises iff it has none; a drag from its end socket leaves that socket empty though the edge ends there |
| NodeView.View.EndCutLine | node_editor/node_view.py:132-137 | the edges the line crosses are removed, the line is cleared, mode NONE |
| NodeView.View.CutIntersectingEdges | node_editor/node_view.py:139-145 | each consecutive point pair removes the edges it crosses |
| NodeView.View.CutSegment | node_editor/node_view.py:143-145 | corrected inner loop: exactly the crossed edges leave, the rest in order |
| NodeView.View.CutSegmentAsWritten | node_editor/node_view.py:143-145 | as written the live-list loop leaves `Sweep(edges, 0, …)` |
| NodeView.View.CutEdge | node_editor/node_view.py:144-145 | the edge is removed iff the segment crosses it |
| NodeView.View.MouseMove | node_editor/node_view.py:204-216 | in EDGE_CUT the point is appended to the line; otherwise the line is unchanged |
| NodeView.View.KeyPress | node_editor/node_view.py:218-223 | handled iff Delete outside NODE_EDIT; otherwise nothing changes |
| NodeView.View.DeleteSelected | node_editor/node_view.py:225-230 | `ok` iff no removal raised, and then every selected edge and node is gone and exactly the unselected nodes remain; a failure names a node unlisted or selected twice; edges only leave and every edge the selection does not release stays; anchoring and `Mutual` are kept, and under `Mutual` every released edge leaves |
| NodeView.View.DeleteItem | node_editor/node_view.py:226-230 | the item is gone; `ok` fails only for an unlisted node; exactly that node leaves the node list; edges only leave and every edge the item does not release stays; under `Mutual` every released edge leaves |

## Left out

- Qt widgets, painting, the graphics scene, the cut line's drawing, cursors, zoom and the middle-button fake events are not modelled. Item picking, the scene position of the mouse, the Ctrl modifier, the Delete key and the graphics scene's selection arrive as parameters.
- Whether a drawn edge crosses a cut segment (`intersectsWith`, a Qt path test) is the parameter `cuts`.
- Coordinates are exact reals, not floating point.
- JSON text encoding and file I/O (`json.dumps`/`json.loads`, `saveToFile`, `loadFrom`) are not modelled. Documents are Dafny datatypes, and text that does not parse is `None` at `paste`.
- Object ids (`id(self)`) are a per-scene counter, so ids never collide.
- The widget kinds of `_deleteSelected` and `createStamp` (`EdgeWidget`, `NodeWidget`, anything with a `node` attribute) are approximated by the `Item` and `Pick` variants.
- `Node.updateEdges` only redraws edges on screen and is not modelled. `Edge.updatePositions` is modelled as the points it computes (`Positions`).
- MultiEdgeGraph.Socket.Deserialized merges `Socket(...)` with the `deserialize` that immediately follows it, the only way the core deserializes a socket. The socket's id and `multi_edges` are therefore fixed at construction.
- SingleEdgeGraph.Edge.Deserialize treats an id that names a node rather than a socket as a failed lookup. Python would instead set an `edge` attribute on the node.
- SingleEdgeGraph.Edge.constructor follows the setter form of node_editor/core/components.py:279-293. The constructor of node_editor/core/edge.py:7-21 also demands a start socket and binds the ends before `addEdge`, which leaves the same state.
- NodeView.View.constructor starts `lastPress` at the origin. The source has no value until the first press, and no release in EDGE_DRAG can precede one.
- The scene history and the clipboard are modelled against the multi-edge scene with its `restore` flag, which only the src components accept. node_editor/clipboard/scene_clipboard.py:82 imports the single-edge `Node` and :89 the single-edge `Edge`. Neither single-edge `deserialize` (node_editor/core/components.py:180, 377) takes a `restore` argument, so a paste as written raises TypeError at its first node record (:84), before any edge.
- Clipboard.SceneClipboard.Cut deletes through the view's `_deleteSelected` (node_editor/node_view.py:225-230), as evidently intended. The call at scene_clipboard.py:38 raises instead (see Findings); Clipboard.SceneClipboard.CutAsWritten models that. The graphics scene class is not part of this model.
- Clipboard.SceneClipboard.Cut stores its stamp with an empty selection, because the deleted items are no longer selected.
- Clipboard.SceneClipboard.Cut and Copy return the document before JSON encoding.
- `socket_map` is modelled by its key set, since `_save` only tests membership.
- The clipboard receives the scene's history as a constructor argument instead of reading `scene.history`. The window and menu plumbing that calls cut, copy, paste, undo and redo is not modelled.
- A paste text without an `edges` key is modelled as raising (`Raised`) after the nodes are created, as the edge loop's `data['edges']` does.
- History.SceneHistory.CreateStamp serializes the scene before collecting the selected ids. Serializing changes nothing, so the stamp is the same.
- The multi-edge Node.Remove, built on `Socket.RemoveEdges` and used by `Scene.Clear` and the clipboard, is the corrected one (see Findings). The as-written loop is modelled separately by Node.RemoveAsWritten.
- NodeView.View.EdgeDragEnd uses the corrected AbandonDrag, and History.SceneHistory.RestoreStamp uses the corrected Reselect. Both as-written versions are modelled beside them.
- `inputs_data.sort(...)` and `outputs_data.sort(...)` in `Node.deserialize` (src/node_editor/core/components.py:238-239, node_editor/core/components.py:191-192) sort the caller's record lists in place, so a history snapshot or clipboard document is left with its socket records sorted. The model sorts a copy and leaves the caller's document as it was.
- The removal of a node's widget from the graphics scene (`grScene.removeItem`) is not modelled.
- SingleEdgeGraph.Node.Remove, NodeView.View.DeleteItem and NodeView.View.DeleteSelected promise that the released edges leave the list only under `Mutual` (every end of an edge holds it). `Edge.remove` clears both end sockets even where one holds another edge. Under anchoring alone, a socket of the node may hold `e2` while another edge `e1` also ends there: releasing `e1` first clears that socket, so `e2` is never removed and stays listed.
- SingleEdgeGraph.Scene.Clear states that the edges held by the removed nodes leave the list only under `Mutual`, for the same reason.
- SingleEdgeGraph.Scene.Deserialize states what the new sockets hold only when every edge record resolves. After a failed lookup, `Populate`'s `Held` still says what each socket holds, but `Deserialize` does not restate it.
- NodeView.View.CutIntersectingEdges, and with it NodeView.View.EndCutLine and NodeView.View.LeftMouseButtonRelease in EDGE_CUT, uses the corrected CutSegment over a copy of the edge list. The skipping loop as written is NodeView.View.CutSegmentAsWritten (see Findings).
- MultiEdgeGraph.Edge.ResolveStart and MultiEdgeGraph.Edge.ResolveEnd leave the end unset where the key names a node. Python stores the node as `_start_socket` or `_end_socket` and then raises AttributeError on `addEdge`, which a node lacks. The model's ends are sockets, so that state is not represented.
- History.SceneHistory.Reselect and History.SceneHistory.ReselectAsWritten return the flags they assign as `edgeMarks` and `nodeMarks`. The source assigns a plain Python attribute `selected` on each widget, not Qt's `setSelected`. So the graphics scene's own selection, which `createStamp` reads through `selectedItems`, does not change; the model does not feed the flags back into a later selection.

## Findings

| source | as written | input that shows it | evidently intended | confidence | as-written member | corrected member |
|---|---|---|---|---|---|---|
| src/node_editor/core/components.py:200-203 | `for edge in socket.edges: edge.remove()` walks the list that each removal shrinks | a socket listing edges [e0, e1]: the loop removes e0, then its position 1 is past the end, so e1 stays bound to the removed node | every edge at the node's sockets is removed | not executed | MultiEdgeGraph.Node.RemoveAsWritten | MultiEdgeGraph.Node.Remove |
| node_editor/node_view.py:177-178 | a failed drag rebinds `previousEdge.start_socket.edge`, the previous edge's own start | a drag started from the end socket of an existing edge and dropped on empty canvas: the socket is left holding no edge although the edge still ends there | the socket the drag started from holds its previous edge again | not executed | NodeView.View.AbandonDragAsWritten | NodeView.View.AbandonDrag |
| node_editor/node_view.py:143-145 | `for edge in self.scene.edges` removes crossed edges from the list it walks | edges [a, b], both crossed by the segment: a is removed, b slides into its place and is never tested | every crossed edge is removed | not executed | NodeView.View.CutSegmentAsWritten | NodeView.View.CutSegment |
| node_editor/history/scene_history.py:60-67 | the inner loops `break` after the first item | two selected edges with ids A and B: the first edge is set to `B == A` (deselected) and the second is never touched | each item is selected exactly when its id was recorded | not executed | History.SceneHistory.ReselectAsWritten | History.SceneHistory.Reselect |
| node_editor/clipboard/scene_clipboard.py:38 | `self._scene.grScene.view()[0].deleteSelected()` | any selection whose `_save` succeeds: the graphics scene has `views()`, not `view()`, and the view defines `_deleteSelected`, so AttributeError is raised after saving; nothing is deleted, no stamp is stored and no text is returned | the selected items are deleted and one stamp is stored | not executed | Clipboard.SceneClipboard.CutAsWritten | Clipboard.SceneClipboard.Cut |
