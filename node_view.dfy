/** The interaction state machine of node_editor/node_view.py: left-button
    presses and releases drag edges between sockets and draw a cut line,
    mouse moves extend the cut line, and the Delete key removes the
    selection. It works on the single-edge graph through the scene's `mode`
    field, the view's `dragEdge`, `previousEdge` and `previousStartSocket`
    fields and the cut line's list of points.

    Qt's item picking, scene coordinates and keyboard state arrive as
    parameters, and the test whether a drawn edge crosses a segment of the
    cut line is the parameter `cuts`. */
module NodeView {

  import opened Kinds
  import opened Lists
  import opened Layout
  import opened SingleEdgeGraph

  /** The item under the cursor: nothing, a socket, an edge, a node (or any
      item with a `node` attribute), or anything else. */
  datatype Item = NoItem | SocketItem(socket: Socket) | EdgeItem(edge: Edge) | NodeItem(node: Node) | OtherItem

  /** `edgeDragThreshold`: the least squared distance a release must lie
      from the press for it to end a drag. */
  const EDGE_DRAG_THRESHOLD: real := 10.0

  /** The release lies far enough from the press to end a drag. */
  predicate Far(press: Point, release: Point)
  {
    var dx, dy := release.x - press.x, release.y - press.y;
    dx * dx + dy * dy >= EDGE_DRAG_THRESHOLD
  }

  /** `edge.grEdge.intersectsWith(p1, p2)`: whether the drawn edge crosses the
      segment from p1 to p2. */
  type Cutter = (Edge, Point, Point) -> bool

  /** The edges of `l` the segment from `p` to `q` does not cross, in order. */
  function Uncut(l: seq<Edge>, cuts: Cutter, p: Point, q: Point): seq<Edge>
  {
    if l == [] then [] else
      var init, last := l[..|l| - 1], l[|l| - 1];
      Uncut(init, cuts, p, q) + (if cuts(last, p, q) then [] else [last])
  }

  lemma UncutAppend(l: seq<Edge>, e: Edge, cuts: Cutter, p: Point, q: Point)
    ensures Uncut(l + [e], cuts, p, q) == Uncut(l, cuts, p, q) + (if cuts(e, p, q) then [] else [e])
  {
    assert (l + [e])[..|l|] == l;
  }

  /** An edge survives the segment exactly when it does not cross it. */
  lemma {:induction false} UncutMembers(l: seq<Edge>, cuts: Cutter, p: Point, q: Point)
    ensures forall e :: e in Uncut(l, cuts, p, q) <==> e in l && !cuts(e, p, q)
  {
    if l != [] {
      var init := l[..|l| - 1];
      UncutMembers(init, cuts, p, q);
      assert l == init + [l[|l| - 1]];
    }
  }

  /** The number of consecutive point pairs of a cut line. */
  function SegmentCount(points: seq<Point>): nat
  {
    if |points| == 0 then 0 else |points| - 1
  }

  /** What cutting along the first `n` segments of the line leaves of `es`. */
  function CutAlong(es: seq<Edge>, cuts: Cutter, points: seq<Point>, n: nat): seq<Edge>
    requires n <= SegmentCount(points)
  {
    if n == 0 then es else Uncut(CutAlong(es, cuts, points, n - 1), cuts, points[n - 1], points[n])
  }

  /** An edge survives the cut line exactly when none of the line's
      segments crosses it. */
  lemma {:induction false} CutAlongMembers(es: seq<Edge>, cuts: Cutter, points: seq<Point>, n: nat)
    requires n <= SegmentCount(points)
    ensures forall e :: e in CutAlong(es, cuts, points, n) <==>
              e in es && forall i :: 0 <= i < n ==> !cuts(e, points[i], points[i + 1])
  {
    if n > 0 {
      CutAlongMembers(es, cuts, points, n - 1);
      UncutMembers(CutAlong(es, cuts, points, n - 1), cuts, points[n - 1], points[n]);
    }
  }

  /** One step of removing the crossed edges listed in `snapshot` from a
      list that still holds `snapshot[j..]` behind the survivors so far. */
  lemma CutStep(snapshot: seq<Edge>, j: nat, cuts: Cutter, p: Point, q: Point)
    requires NoDup(snapshot) && j < |snapshot|
    ensures var done, e := Uncut(snapshot[..j], cuts, p, q), snapshot[j];
            Uncut(snapshot[..j + 1], cuts, p, q) + snapshot[j + 1..] ==
              if cuts(e, p, q) then Erase(done + snapshot[j..], e) else done + snapshot[j..]
  {
    var pre, e, rest := snapshot[..j], snapshot[j], snapshot[j + 1..];
    var done := Uncut(pre, cuts, p, q);
    TakeNext(snapshot, j);
    assert snapshot[j..] == [e] + rest;
    UncutAppend(pre, e, cuts, p, q);
    if cuts(e, p, q) {
      NoDupSplit(snapshot, j);
      UncutMembers(pre, cuts, p, q);
    }
    SurvivorStep(done, e, rest, cuts(e, p, q));
  }

  /** The list shape behind `CutStep`: keeping `e` leaves it in place, and
      dropping it equals erasing it once it is absent from the survivors. */
  lemma SurvivorStep<T>(done: seq<T>, e: T, rest: seq<T>, cut: bool)
    requires cut ==> e !in done
    ensures (done + if cut then [] else [e]) + rest ==
            if cut then Erase(done + ([e] + rest), e) else done + ([e] + rest)
  {
    assert done + ([e] + rest) == done + [e] + rest;
    if cut {
      EraseFirst(done, e, rest);
      assert done + [] == done;
    }
  }

  /** What `for edge in l: if it crosses: l.remove(edge)` leaves of `l` once
      the loop's hidden position is at `i`: each removal closes the list up
      under the position, which then moves past the edge that slid into the
      removed one's place. */
  function Sweep(l: seq<Edge>, i: nat, cuts: Cutter, p: Point, q: Point): seq<Edge>
    decreases |l| - i
  {
    if i >= |l| then l
    else if cuts(l[i], p, q) then
      EraseLength(l, l[i]);
      Sweep(Erase(l, l[i]), i + 1, cuts, p, q)
    else Sweep(l, i + 1, cuts, p, q)
  }

  /** The sweep never removes an edge the segment does not cross. */
  lemma {:induction false} SweepKeeps(l: seq<Edge>, i: nat, cuts: Cutter, p: Point, q: Point, e: Edge)
    requires e in l && !cuts(e, p, q)
    ensures e in Sweep(l, i, cuts, p, q)
    decreases |l| - i
  {
    if i < |l| {
      if cuts(l[i], p, q) {
        EraseLength(l, l[i]);
        EraseKeeps(l, l[i], e);
        SweepKeeps(Erase(l, l[i]), i + 1, cuts, p, q, e);
      } else {
        SweepKeeps(l, i + 1, cuts, p, q, e);
      }
    }
  }

  /** Without repetitions the sweep leaves the positions before `j` alone. */
  lemma {:induction false} SweepPrefix(l: seq<Edge>, j: nat, cuts: Cutter, p: Point, q: Point)
    requires NoDup(l) && j <= |l|
    ensures |Sweep(l, j, cuts, p, q)| >= j && Sweep(l, j, cuts, p, q)[..j] == l[..j]
    decreases |l| - j
  {
    if j < |l| {
      if cuts(l[j], p, q) {
        NoDupSplit(l, j);
        EraseFirst(l[..j], l[j], l[j + 1..]);
        assert l == l[..j] + [l[j]] + l[j + 1..];
        var l' := l[..j] + l[j + 1..];
        if j + 1 <= |l'| {
          SweepPrefix(l', j + 1, cuts, p, q);
          assert l'[..j + 1][..j] == l[..j];
        } else {
          assert l'[..j] == l[..j];
        }
      } else {
        SweepPrefix(l, j + 1, cuts, p, q);
        assert l[..j + 1][..j] == l[..j];
      }
    }
  }

  /** The edge listed right after a crossed edge survives the sweep, whether
      the segment crosses it or not: the loop never looks at it. */
  lemma SweepSkipsNext(l: seq<Edge>, i: nat, cuts: Cutter, p: Point, q: Point)
    requires NoDup(l) && i + 1 < |l| && cuts(l[i], p, q)
    ensures l[i + 1] in Sweep(l, i, cuts, p, q)
  {
    NoDupSplit(l, i);
    EraseFirst(l[..i], l[i], l[i + 1..]);
    assert l == l[..i] + [l[i]] + l[i + 1..];
    var l' := l[..i] + l[i + 1..];
    SweepPrefix(l', i + 1, cuts, p, q);
    assert l'[..i + 1][i] == l[i + 1];
  }

  /** The sockets an edge runs between; none for no edge. */
  ghost function EndsOf(e: Edge?): set<Socket>
    reads e
  {
    if e == null then {}
    else (if e.start != null then {e.start} else {}) + (if e.end != null then {e.end} else {})
  }

  /** The edges deleting `item` may take out of the scene: a selected edge
      itself, or the edges a selected node's sockets hold. */
  ghost function Releases(item: Item): set<Edge>
    reads if item.NodeItem? then {item.node} else {}
    reads if item.NodeItem? then item.node.inputs else [], if item.NodeItem? then item.node.outputs else []
  {
    match item
    case EdgeItem(e) => {e}
    case NodeItem(n) => n.Held()
    case _ => {}
  }

  /** The selected nodes and their sockets. */
  ghost function ItemParts(items: seq<Item>): set<object>
    reads set k | 0 <= k < |items| && items[k].NodeItem? :: items[k].node
  {
    if items == [] then {}
    else
      var item := items[|items| - 1];
      ItemParts(items[..|items| - 1]) +
      if item.NodeItem? then {item.node as object} + Elements(item.node.inputs) + Elements(item.node.outputs) else {}
  }

  /** The edges deleting every item of `items` may take out. */
  ghost function ReleasedBy(items: seq<Item>): set<Edge>
    reads set k | 0 <= k < |items| && items[k].NodeItem? :: items[k].node
    reads ItemParts(items)
  {
    if items == [] then {} else ReleasedBy(items[..|items| - 1]) + Releases(items[|items| - 1])
  }

  /** Deleting a selection may take out the selected edges and the edges
      the selected nodes' sockets hold, and nothing else. */
  lemma {:induction false} ReleasedByMembers(items: seq<Item>)
    ensures forall e :: e in ReleasedBy(items) <==>
      EdgeItem(e) in items || exists n :: NodeItem(n) in items && e in n.Held()
  {
    if items != [] {
      var init, last := items[..|items| - 1], items[|items| - 1];
      ReleasedByMembers(init);
      assert items == init + [last];
    }
  }

  /** The item's edge or node is not among `edges` or `nodes`. */
  ghost predicate Absent(item: Item, nodes: seq<Node>, edges: seq<Edge>)
  {
    match item
    case EdgeItem(e) => e !in edges
    case NodeItem(n) => n !in nodes
    case _ => true
  }

  /** An item missing from the lists stays missing once they shrink. */
  lemma AbsentShrinks(done: seq<Item>, nodes: seq<Node>, edges: seq<Edge>, nodes': seq<Node>, edges': seq<Edge>)
    requires forall j :: 0 <= j < |done| ==> Absent(done[j], nodes, edges)
    requires (forall n :: n in nodes' ==> n in nodes) && forall e :: e in edges' ==> e in edges
    ensures forall j :: 0 <= j < |done| ==> Absent(done[j], nodes', edges')
  {
  }

  /** `Releases(item)`, read off the sockets `socks` records for each node
      and the edges `was` records for each socket. */
  ghost function ReleasesIn(socks: map<Node, seq<Socket>>, was: map<Socket, Edge?>, item: Item): set<Edge>
  {
    match item
    case EdgeItem(e) => {e}
    case NodeItem(n) => if n in socks then set s | s in socks[n] && s in was && was[s] != null :: was[s] else {}
    case _ => {}
  }

  /** `ReleasedBy(items)`, read off `socks` and `was`. */
  ghost function ReleasedByIn(socks: map<Node, seq<Socket>>, was: map<Socket, Edge?>, items: seq<Item>): set<Edge>
  {
    if items == [] then {} else ReleasedByIn(socks, was, items[..|items| - 1]) + ReleasesIn(socks, was, items[|items| - 1])
  }

  /** While `socks` and `was` record what the selected nodes have, the two
      readings agree. */
  lemma {:induction false} ReleasedByAt(socks: map<Node, seq<Socket>>, was: map<Socket, Edge?>, items: seq<Item>)
    requires forall k :: 0 <= k < |items| && items[k].NodeItem? ==>
      items[k].node in socks && socks[items[k].node] == items[k].node.inputs + items[k].node.outputs
    requires forall k, s :: 0 <= k < |items| && items[k].NodeItem? && s in items[k].node.inputs + items[k].node.outputs ==>
      s in was && s.edge == was[s]
    ensures ReleasedBy(items) == ReleasedByIn(socks, was, items)
  {
    if items != [] {
      ReleasedByAt(socks, was, items[..|items| - 1]);
    }
  }

  /** A prefix of a selection releases no more than the selection. */
  lemma {:induction false} ReleasedByInPrefix(socks: map<Node, seq<Socket>>, was: map<Socket, Edge?>, items: seq<Item>, k: nat)
    requires k <= |items|
    ensures ReleasedByIn(socks, was, items[..k]) <= ReleasedByIn(socks, was, items)
  {
    if k < |items| {
      ReleasedByInPrefix(socks, was, items[..|items| - 1], k);
      assert items[..|items| - 1][..k] == items[..k];
    } else {
      assert items[..k] == items;
    }
  }

  /** While a node's sockets hold what `was` records or nothing, the node
      holds no edge `was` does not record for it; and where each socket
      that stopped holding an edge saw it leave `edges`, every edge `was`
      records for it is still held or has left. */
  lemma HeldWithin(n: Node, socks: map<Node, seq<Socket>>, was: map<Socket, Edge?>, edges: seq<Edge>)
    requires n in socks && socks[n] == n.inputs + n.outputs
    requires forall s :: s in n.inputs + n.outputs ==> s in was && (s.edge == null || s.edge == was[s])
    ensures n.Held() <= ReleasesIn(socks, was, NodeItem(n))
    ensures (forall s :: s in n.inputs + n.outputs && s.edge == null && was[s] != null ==> was[s] !in edges) ==>
              forall e :: e in ReleasesIn(socks, was, NodeItem(n)) ==> e in n.Held() || e !in edges
  {
  }

  class View {
    const scene: Scene
    /** `lastPressedItemPos`: where the last left press happened. */
    var lastPress: Point
    var dragEdge: Edge?
    var previousEdge: Edge?
    var previousStartSocket: Socket?
    /** `cutLine.line_points`. */
    var linePoints: seq<Point>

    /** The scene is valid and the view's references point into its arenas;
        a drag edge comes with the socket it started from. */
    ghost predicate Linked()
      reads this, scene, scene.NodeSet, scene.SocketSet, scene.EdgeSet
    {
      scene.Valid() &&
      (dragEdge != null ==> dragEdge in scene.EdgeSet && previousStartSocket != null) &&
      (previousEdge != null ==> previousEdge in scene.EdgeSet) &&
      (previousStartSocket != null ==> previousStartSocket in scene.SocketSet)
    }

    /** `Linked`, and while the scene is in EDGE_DRAG there is a drag edge. */
    ghost predicate Valid()
      reads this, scene, scene.NodeSet, scene.SocketSet, scene.EdgeSet
    {
      Linked() && (scene.mode == EdgeDrag ==> dragEdge != null)
    }

    /** The shape a drag has right after it starts: the drag edge dangles from
        the start socket (or from nothing, once removed), and the start
        socket's previous edge, a different one, ends at that socket. */
    ghost predicate Dragging()
      reads this, dragEdge, previousEdge
    {
      dragEdge != null && previousStartSocket != null && dragEdge != previousEdge &&
      (dragEdge.start == null || dragEdge.start == previousStartSocket) && dragEdge.end == null &&
      (previousEdge != null ==> previousEdge.start == previousStartSocket || previousEdge.end == previousStartSocket)
    }

    /** The item is an entity of the scene. */
    ghost predicate Picks(item: Item)
      reads this, scene
    {
      match item
      case SocketItem(s) => s in scene.SocketSet
      case EdgeItem(e) => e in scene.EdgeSet
      case NodeItem(n) => n in scene.NodeSet
      case _ => true
    }

    /** The item's edge or node is no longer listed in the scene. */
    ghost predicate Gone(item: Item)
      reads this, scene
    {
      match item
      case EdgeItem(e) => e !in scene.edges
      case NodeItem(n) => n !in scene.nodes
      case _ => true
    }

    /** A view of a scene that is not dragging, with an empty cut line. */
    constructor(scene: Scene)
      requires scene.Valid() && scene.mode != EdgeDrag
      ensures Valid() && this.scene == scene && linePoints == []
      ensures dragEdge == null && previousEdge == null && previousStartSocket == null
    {
      this.scene := scene;
      lastPress := Point(0.0, 0.0);
      dragEdge, previousEdge, previousStartSocket := null, null, null;
      linePoints := [];
    }

    /** `leftMouseButtonPress`: a press on a socket in mode NONE starts a
        drag; a press while dragging ends the drag (which leaves EDGE_DRAG
        whatever it returns); a Ctrl-press on empty canvas then starts a cut
        line. `handled` is false where the source hands the event to Qt. */
    method LeftMouseButtonPress(item: Item, pos: Point, ctrl: bool) returns (handled: bool)
      requires Valid() && Picks(item)
      modifies this`lastPress, this`previousEdge, this`previousStartSocket, this`dragEdge
      modifies scene`mode, scene`edges, scene`EdgeSet, scene.ids, scene.SocketSet`edge, scene.EdgeSet`start, scene.EdgeSet`end
      ensures Valid() && lastPress == pos
      ensures old(scene.mode) == Idle && item.SocketItem? ==>
                handled && scene.mode == EdgeDrag && previousStartSocket == item.socket &&
                previousEdge == old(item.socket.edge) && fresh(dragEdge)
      ensures old(scene.mode) == Idle && item.SocketItem? ==>
                dragEdge.start == item.socket && dragEdge.end == null && item.socket.edge == dragEdge &&
                scene.edges == old(scene.edges) + [dragEdge]
      ensures old(scene.mode) == EdgeDrag ==>
                handled == ((item.SocketItem? && item.socket != old(previousStartSocket)) || (item.NoItem? && ctrl)) &&
                scene.mode == (if item.NoItem? && ctrl then EdgeCut else Idle)
      ensures old(scene.mode) == EdgeDrag && item.SocketItem? && item.socket != old(previousStartSocket) ==>
                dragEdge == old(dragEdge) && dragEdge.start == previousStartSocket && dragEdge.end == item.socket &&
                previousStartSocket.edge == dragEdge && item.socket.edge == dragEdge &&
                forall e :: e in scene.edges <==> e in old(scene.edges) && e != old(item.socket.edge) && e != old(previousEdge)
      ensures old(scene.mode) == EdgeDrag && item.SocketItem? && item.socket != old(previousStartSocket) ==>
                forall s :: s in scene.SocketSet && s != previousStartSocket && s != item.socket ==>
                  s.edge == if s in old(EndsOf(item.socket.edge)) + old(EndsOf(previousEdge)) then null else old(s.edge)
      ensures old(scene.mode) == EdgeDrag && !(item.SocketItem? && item.socket != old(previousStartSocket)) ==>
                dragEdge == null && forall e :: e in scene.edges <==> e in old(scene.edges) && e != old(dragEdge)
      ensures old(scene.mode) == EdgeDrag && !(item.SocketItem? && item.socket != old(previousStartSocket)) ==>
                forall s :: s in scene.SocketSet ==>
                  s.edge == if old(previousEdge) != null && s == old(previousStartSocket) then old(previousEdge)
                            else if s in old(EndsOf(dragEdge)) then null else old(s.edge)
      ensures old(scene.mode) != EdgeDrag && !(old(scene.mode) == Idle && item.SocketItem?) ==>
                handled == (item.NoItem? && ctrl) && scene.mode == (if handled then EdgeCut else old(scene.mode)) &&
                scene.edges == old(scene.edges)
    {
      lastPress := pos;
      if item.SocketItem? && scene.mode == Idle {
        scene.mode := EdgeDrag;
        EdgeDragStart(item.socket);
        return true;
      }
      if scene.mode == EdgeDrag {
        var ended := EdgeDragEnd(item);
        if ended {
          return true;
        }
      }
      if item.NoItem? && ctrl {
        BeginCutLine();
        return true;
      }
      handled := false;
    }

    /** `_beginCutLine`: the scene enters EDGE_CUT. */
    method BeginCutLine()
      modifies scene`mode
      ensures scene.mode == EdgeCut
    {
      scene.mode := EdgeCut;
    }

    /** `leftMouseButtonRelease`: while dragging, a release far enough from
        the press ends the drag; in EDGE_CUT it ends the cut line. `handled`
        is false where the source hands the event to Qt. */
    method LeftMouseButtonRelease(item: Item, pos: Point, cuts: Cutter) returns (handled: bool)
      requires Valid() && Picks(item)
      modifies this`dragEdge, this`linePoints
      modifies scene`mode, scene`edges, scene.SocketSet`edge, scene.EdgeSet`start, scene.EdgeSet`end
      ensures Valid()
      ensures old(scene.mode) == EdgeDrag && Far(lastPress, pos) ==>
                scene.mode == Idle && handled == (item.SocketItem? && item.socket != previousStartSocket)
      ensures old(scene.mode) == EdgeDrag && Far(lastPress, pos) && handled ==>
                dragEdge == old(dragEdge) && dragEdge.start == previousStartSocket && dragEdge.end == item.socket &&
                previousStartSocket.edge == dragEdge && item.socket.edge == dragEdge &&
                forall e :: e in scene.edges <==> e in old(scene.edges) && e != old(item.socket.edge) && e != previousEdge
      ensures old(scene.mode) == EdgeDrag && Far(lastPress, pos) && handled ==>
                forall s :: s in scene.SocketSet && s != previousStartSocket && s != item.socket ==>
                  s.edge == if s in old(EndsOf(item.socket.edge)) + old(EndsOf(previousEdge)) then null else old(s.edge)
      ensures old(scene.mode) == EdgeDrag && Far(lastPress, pos) && !handled ==>
                dragEdge == null && forall e :: e in scene.edges <==> e in old(scene.edges) && e != old(dragEdge)
      ensures old(scene.mode) == EdgeDrag && Far(lastPress, pos) && !handled ==>
                forall s :: s in scene.SocketSet ==>
                  s.edge == if previousEdge != null && s == previousStartSocket then previousEdge
                            else if s in old(EndsOf(dragEdge)) then null else old(s.edge)
      ensures old(scene.mode) == EdgeDrag && !Far(lastPress, pos) ==>
                !handled && scene.mode == EdgeDrag && scene.edges == old(scene.edges)
      ensures old(scene.mode) == EdgeCut ==>
                handled && scene.mode == Idle && linePoints == [] &&
                scene.edges == CutAlong(old(scene.edges), cuts, old(linePoints), SegmentCount(old(linePoints)))
      ensures old(scene.mode) == Idle || old(scene.mode) == NodeEdit ==>
                !handled && scene.mode == old(scene.mode) && scene.edges == old(scene.edges)
    {
      if scene.mode == EdgeDrag {
        if Far(lastPress, pos) {
          var ended := EdgeDragEnd(item);
          if ended {
            return true;
          }
        }
      }
      if scene.mode == EdgeCut {
        EndCutLine(cuts);
        return true;
      }
      handled := false;
    }

    /** `_edgeDragStart`: the socket's current edge and the socket itself are
        remembered, and a new dangling Bezier edge starts at the socket,
        which now holds it. Starting a drag keeps every bound socket an end
        of its edge and gives the drag its starting shape. */
    method EdgeDragStart(socket: Socket)
      requires Linked() && socket in scene.SocketSet
      modifies this`previousEdge, this`previousStartSocket, this`dragEdge
      modifies scene`edges, scene`EdgeSet, scene.ids, socket`edge
      ensures Linked() && previousEdge == old(socket.edge) && previousStartSocket == socket
      ensures fresh(dragEdge) && dragEdge.start == socket && dragEdge.end == null && dragEdge.edgeType == BEZIER
      ensures socket.edge == dragEdge && scene.edges == old(scene.edges) + [dragEdge]
      ensures old(scene.Anchored()) ==> scene.Anchored() && Dragging()
    {
      previousEdge := socket.edge;
      previousStartSocket := socket;
      dragEdge := new Edge(scene, socket, null, BEZIER);
    }

    /** `_edgeDragEnd`: the scene returns to mode NONE. Released on a socket
        other than the start socket, the drag succeeds: the edges that
        socket and the start socket held before are removed and the drag edge
        joins the two sockets, both of which hold it. Otherwise the drag edge
        is removed and the start socket holds its previous edge again. From
        the shape a drag starts with, every bound socket stays an end of its
        edge. */
    method EdgeDragEnd(item: Item) returns (ended: bool)
      requires Linked() && Picks(item) && dragEdge != null
      modifies this`dragEdge, scene`mode, scene`edges, scene.SocketSet`edge, scene.EdgeSet`start, scene.EdgeSet`end
      ensures Valid() && scene.mode == Idle
      ensures ended == (item.SocketItem? && item.socket != previousStartSocket)
      ensures ended ==> dragEdge == old(dragEdge) && dragEdge.start == previousStartSocket && dragEdge.end == item.socket
      ensures ended ==> previousStartSocket.edge == dragEdge && item.socket.edge == dragEdge
      ensures ended ==> forall e :: e in scene.edges <==> e in old(scene.edges) && e != old(item.socket.edge) && e != previousEdge
      ensures ended ==> forall s :: s in scene.SocketSet && s != previousStartSocket && s != item.socket ==>
                s.edge == if s in old(EndsOf(item.socket.edge)) + old(EndsOf(previousEdge)) then null else old(s.edge)
      ensures ended && old(scene.Anchored()) && old(Dragging()) ==> (dragEdge in scene.edges <==> old(dragEdge) in old(scene.edges))
      ensures !ended ==> dragEdge == null && forall e :: e in scene.edges <==> e in old(scene.edges) && e != old(dragEdge)
      ensures !ended ==> forall s :: s in scene.SocketSet ==>
                s.edge == if previousEdge != null && s == previousStartSocket then previousEdge
                          else if s in old(EndsOf(dragEdge)) then null else old(s.edge)
      ensures old(scene.Anchored()) && old(Dragging()) ==> scene.Anchored()
    {
      scene.mode := Idle;
      if item.SocketItem? && item.socket != previousStartSocket {
        ReplaceEdges(item.socket);
        Connect(item.socket);
        ended := true;
      } else {
        AbandonDrag();
        ended := false;
      }
    }

    /** The removals of a successful drag: the target socket's edge, if it
        has one, then `previousEdge`, if there is one. */
    method ReplaceEdges(target: Socket)
      requires Linked() && target in scene.SocketSet
      modifies scene`edges, scene.SocketSet`edge, {target.edge, previousEdge}`start, {target.edge, previousEdge}`end
      ensures Linked()
      ensures forall e :: e in scene.edges <==> e in old(scene.edges) && e != old(target.edge) && e != previousEdge
      ensures forall s :: s in scene.SocketSet ==>
                s.edge == if s in old(EndsOf(target.edge)) + old(EndsOf(previousEdge)) then null else old(s.edge)
      ensures old(scene.Anchored()) ==> scene.Anchored()
    {
      if target.HasEdge() {
        var t: Edge := target.edge;
        EraseNoDup(scene.edges, t);
        t.Remove();
      }
      if previousEdge != null {
        var e: Edge := previousEdge;
        EraseNoDup(scene.edges, e);
        e.Remove();
      }
    }

    /** The binding of a successful drag: the drag edge runs from the start
        socket to `target` (plain attribute assignments), and both sockets
        are bound to it. */
    method Connect(target: Socket)
      requires Linked() && dragEdge != null && target in scene.SocketSet
      modifies dragEdge`start, dragEdge`end, {previousStartSocket, target}`edge
      ensures Linked() && dragEdge.start == previousStartSocket && dragEdge.end == target
      ensures previousStartSocket.edge == dragEdge && target.edge == dragEdge
      ensures (old(scene.Anchored()) && (old(dragEdge.start) == null || old(dragEdge.start) == previousStartSocket) &&
               (old(dragEdge.end) == null || old(dragEdge.end) == target)) ==> scene.Anchored()
    {
      dragEdge.AssignStart(previousStartSocket);
      dragEdge.AssignEnd(target);
      previousStartSocket.BindEdge(dragEdge);
      target.BindEdge(dragEdge);
    }

    /** The failure path of `_edgeDragEnd`, with the start socket bound to
        its previous edge again. */
    method AbandonDrag()
      requires Linked() && dragEdge != null && scene.mode != EdgeDrag
      modifies this`dragEdge, scene`edges, scene.SocketSet`edge, dragEdge`start, dragEdge`end
      ensures Valid() && dragEdge == null
      ensures forall e :: e in scene.edges <==> e in old(scene.edges) && e != old(dragEdge)
      ensures forall s :: s in scene.SocketSet ==>
                s.edge == if previousEdge != null && s == previousStartSocket then previousEdge
                          else if s in old(EndsOf(dragEdge)) then null else old(s.edge)
      ensures old(scene.Anchored()) && old(Dragging()) ==> scene.Anchored()
    {
      var d: Edge := dragEdge;
      EraseNoDup(scene.edges, d);
      d.Remove();
      dragEdge := null;
      if previousEdge != null {
        previousStartSocket.BindEdge(previousEdge);
      }
    }

    /** The failure path of `_edgeDragEnd` as written: the previous edge is
        bound again on its own start socket, not on the socket the drag
        started from. `raised` is the AttributeError of a previous edge that
        lost its start meanwhile. A drag that started at the previous edge's
        end socket leaves that socket holding no edge, although the edge
        still ends there. */
    method AbandonDragAsWritten() returns (raised: bool)
      requires Linked() && dragEdge != null && scene.mode != EdgeDrag
      modifies this`dragEdge, scene`edges, scene.SocketSet`edge, dragEdge`start, dragEdge`end
      ensures Valid() && dragEdge == null && old(dragEdge) !in scene.edges
      ensures raised <==> previousEdge != null && previousEdge.start == null
      ensures previousEdge != null && !raised ==> previousEdge.start.edge == previousEdge
      ensures old(Dragging()) && old(dragEdge.start) == previousStartSocket &&
              previousEdge != null && previousEdge.start != previousStartSocket ==>
                previousStartSocket.edge == null && previousEdge.end == previousStartSocket
    {
      dragEdge.Remove();
      dragEdge := null;
      raised := false;
      if previousEdge != null {
        if previousEdge.start == null {
          raised := true;
        } else {
          previousEdge.start.BindEdge(previousEdge);
        }
      }
    }

    /** `_endCutLine`: the edges the line crosses are removed, the line is
        cleared and the scene returns to mode NONE. */
    method EndCutLine(cuts: Cutter)
      requires Valid()
      modifies this`linePoints, scene`mode, scene`edges, scene.SocketSet`edge, scene.EdgeSet`start, scene.EdgeSet`end
      ensures Valid() && scene.mode == Idle && linePoints == []
      ensures scene.edges == CutAlong(old(scene.edges), cuts, old(linePoints), SegmentCount(old(linePoints)))
      ensures old(scene.Anchored()) ==> scene.Anchored()
    {
      CutIntersectingEdges(cuts);
      linePoints := [];
      scene.mode := Idle;
    }

    /** `_cutIntersectingEdges`: each of the line's consecutive point pairs
        in turn removes the edges it crosses. */
    method CutIntersectingEdges(cuts: Cutter)
      requires Linked()
      modifies scene`edges, scene.SocketSet`edge, scene.EdgeSet`start, scene.EdgeSet`end
      ensures Linked() && scene.edges == CutAlong(old(scene.edges), cuts, linePoints, SegmentCount(linePoints))
      ensures old(scene.Anchored()) ==> scene.Anchored()
    {
      for i := 0 to SegmentCount(linePoints)
        invariant Linked() && scene.edges == CutAlong(old(scene.edges), cuts, linePoints, i)
        invariant old(scene.Anchored()) ==> scene.Anchored()
      {
        CutSegment(cuts, linePoints[i], linePoints[i + 1]);
      }
    }

    /** The inner loop of `_cutIntersectingEdges`, over a copy of the edge
        list: every edge the segment crosses is removed, and only those. */
    method CutSegment(cuts: Cutter, p: Point, q: Point)
      requires scene.Sound()
      modifies scene`edges, scene.SocketSet`edge, scene.EdgeSet`start, scene.EdgeSet`end
      ensures scene.Sound() && scene.edges == Uncut(old(scene.edges), cuts, p, q)
      ensures old(scene.Anchored()) ==> scene.Anchored()
    {
      var snapshot := scene.edges;
      ghost var anchored := scene.Anchored();
      CutEach(snapshot, cuts, p, q, anchored);
    }

    /** The loop of `CutSegment` over the copy `snapshot` of the list. */
    method CutEach(snapshot: seq<Edge>, cuts: Cutter, p: Point, q: Point, ghost anchored: bool)
      requires scene.Kept(anchored) && scene.edges == snapshot
      modifies scene`edges, scene.SocketSet`edge, scene.EdgeSet`start, scene.EdgeSet`end
      ensures scene.Kept(anchored) && scene.edges == Uncut(snapshot, cuts, p, q)
    {
      assert NoDup(snapshot) && forall k :: 0 <= k < |snapshot| ==> snapshot[k] in scene.EdgeSet;
      for j := 0 to |snapshot|
        invariant scene.Kept(anchored) && scene.edges == Uncut(snapshot[..j], cuts, p, q) + snapshot[j..]
      {
        CutNext(snapshot, j, cuts, p, q, anchored);
      }
      assert snapshot[..|snapshot|] == snapshot;
    }

    /** One pass of the inner loop of `_cutIntersectingEdges`: the edges the
        segment crosses among the first `j + 1` of the copy are gone. */
    method CutNext(snapshot: seq<Edge>, j: nat, cuts: Cutter, p: Point, q: Point, ghost anchored: bool)
      requires NoDup(snapshot) && j < |snapshot| && snapshot[j] in scene.EdgeSet
      requires scene.Kept(anchored) && scene.edges == Uncut(snapshot[..j], cuts, p, q) + snapshot[j..]
      modifies scene`edges, scene.SocketSet`edge, scene.EdgeSet`start, scene.EdgeSet`end
      ensures scene.Kept(anchored) && scene.edges == Uncut(snapshot[..j + 1], cuts, p, q) + snapshot[j + 1..]
    {
      CutStep(snapshot, j, cuts, p, q);
      CutEdge(snapshot[j], cuts, p, q, anchored);
    }

    /** The inner loop of `_cutIntersectingEdges` as written: it walks the
        live edge list while removing from it, so the edge after each
        removed one is never tested. */
    method CutSegmentAsWritten(cuts: Cutter, p: Point, q: Point)
      requires scene.Sound()
      modifies scene`edges, scene.SocketSet`edge, scene.EdgeSet`start, scene.EdgeSet`end
      ensures scene.Sound() && scene.edges == Sweep(old(scene.edges), 0, cuts, p, q)
    {
      var j := 0;
      while j < |scene.edges|
        invariant scene.Sound()
        invariant Sweep(scene.edges, j, cuts, p, q) == Sweep(old(scene.edges), 0, cuts, p, q)
        decreases |scene.edges| - j
      {
        var e := scene.edges[j];
        EraseLength(scene.edges, e);
        CutEdge(e, cuts, p, q, false);
        j := j + 1;
      }
    }

    /** The body of the inner loop of `_cutIntersectingEdges`: the edge is
        removed when the segment crosses it. */
    method CutEdge(e: Edge, cuts: Cutter, p: Point, q: Point, ghost anchored: bool)
      requires scene.Kept(anchored) && e in scene.EdgeSet
      modifies scene`edges, scene.SocketSet`edge, scene.EdgeSet`start, scene.EdgeSet`end
      ensures scene.Kept(anchored) && scene.edges == if cuts(e, p, q) then Erase(old(scene.edges), e) else old(scene.edges)
    {
      if cuts(e, p, q) {
        e.Remove();
      }
    }

    /** `mouseMoveEvent`: in EDGE_CUT the point joins the cut line; the drag
        edge's loose end only moves on screen. */
    method MouseMove(pos: Point)
      modifies this`linePoints
      ensures linePoints == if scene.mode == EdgeCut then old(linePoints) + [pos] else old(linePoints)
    {
      if scene.mode == EdgeCut {
        linePoints := linePoints + [pos];
      }
    }

    /** `keyPressEvent`: Delete removes the selection unless a node is being
        edited; any other key, or Delete while editing, goes to Qt and
        changes nothing here. */
    method KeyPress(delete: bool, selected: seq<Item>) returns (handled: bool, ok: bool)
      requires Valid() && forall k :: 0 <= k < |selected| ==> Picks(selected[k])
      modifies scene`nodes, scene`edges, scene.SocketSet`edge, scene.EdgeSet`start, scene.EdgeSet`end
      ensures Valid() && handled == (delete && scene.mode != NodeEdit)
      ensures !handled ==> ok && scene.nodes == old(scene.nodes) && scene.edges == old(scene.edges)
      ensures ok ==> forall k :: 0 <= k < |selected| && handled ==> Gone(selected[k])
      ensures forall e :: e in old(scene.edges) && e !in old(ReleasedBy(selected)) ==> e in scene.edges
      ensures forall s :: s in scene.SocketSet ==> s.edge == null || s.edge == old(s.edge)
    {
      if delete && scene.mode != NodeEdit {
        ok := DeleteSelected(selected);
        handled := true;
      } else {
        handled, ok := false, true;
      }
    }

    /** `_deleteSelected`: each selected edge and node in turn is removed.
        Removing a node that is no longer listed raises ValueError, which
        stops the loop (`ok` false): that happens only to a node that was not
        listed or was selected twice. */
    method DeleteSelected(selected: seq<Item>) returns (ok: bool)
      requires Valid() && forall k :: 0 <= k < |selected| ==> Picks(selected[k])
      modifies scene`nodes, scene`edges, scene.SocketSet`edge, scene.EdgeSet`start, scene.EdgeSet`end
      ensures Valid()
      ensures ok ==> forall k :: 0 <= k < |selected| ==> Gone(selected[k])
      ensures !ok ==> exists k :: 0 <= k < |selected| && selected[k].NodeItem? &&
                        (selected[k].node !in old(scene.nodes) || selected[k] in selected[..k])
      ensures ok ==> forall n :: n in scene.nodes <==> n in old(scene.nodes) && NodeItem(n) !in selected
      ensures forall n :: n in old(scene.nodes) && NodeItem(n) !in selected ==> n in scene.nodes
      ensures forall e :: e in scene.edges ==> e in old(scene.edges)
      ensures forall e :: e in old(scene.edges) && e !in old(ReleasedBy(selected)) ==> e in scene.edges
      ensures forall s :: s in scene.SocketSet ==> s.edge == null || s.edge == old(s.edge)
      ensures old(scene.Anchored()) ==> scene.Anchored()
      ensures old(scene.Mutual()) ==> scene.Mutual()
      ensures ok && old(scene.Mutual()) ==> forall e :: e in old(ReleasedBy(selected)) ==> e !in scene.edges
    {
      ghost var socks := map n | n in scene.NodeSet :: n.inputs + n.outputs;
      ghost var was := map s | s in scene.SocketSet :: s.edge;
      ghost var anchored, mutual := scene.Anchored(), scene.Mutual();
      forall k, s | 0 <= k < |selected| && selected[k].NodeItem? && s in selected[k].node.inputs + selected[k].node.outputs
        ensures s in was && s.edge == was[s]
      {
        assert Picks(selected[k]);
      }
      ReleasedByAt(socks, was, selected);
      ghost var n: nat;
      ok, n := DeleteAll(selected, old(scene.nodes), old(scene.edges), socks, was, anchored, mutual);
      ReleasedByInPrefix(socks, was, selected, n);
      DeletingDone(selected[..n], old(scene.nodes), old(scene.edges), socks, was, anchored, mutual, ok);
      if ok {
        assert selected[..n] == selected;
      }
    }

    /** The loop of `_deleteSelected`, which stops after the `n`th item
        where removing it raises. */
    method DeleteAll(selected: seq<Item>, ghost nodes0: seq<Node>, ghost edges0: seq<Edge>, ghost socks: map<Node, seq<Socket>>,
                     ghost was: map<Socket, Edge?>, ghost anchored: bool, ghost mutual: bool) returns (ok: bool, ghost n: nat)
      requires (forall j :: 0 <= j < |selected| ==> Picks(selected[j])) && Deleting([], nodes0, edges0, socks, was, anchored, mutual, true)
      requires forall n :: n in scene.NodeSet ==> n in socks && socks[n] == n.inputs + n.outputs
      modifies scene`nodes, scene`edges, scene.SocketSet`edge, scene.EdgeSet`start, scene.EdgeSet`end
      ensures n <= |selected| && Deleting(selected[..n], nodes0, edges0, socks, was, anchored, mutual, ok)
      ensures ok ==> n == |selected|
      ensures !ok ==> 0 < n && selected[n - 1].NodeItem? && (selected[n - 1].node !in nodes0 || selected[n - 1] in selected[..n - 1])
    {
      assert selected[..0] == [];
      for k := 0 to |selected|
        invariant Deleting(selected[..k], nodes0, edges0, socks, was, anchored, mutual, true)
      {
        ok := DeleteNext(selected, k, nodes0, edges0, socks, was, anchored, mutual);
        if !ok {
          n := k + 1;
          return;
        }
      }
      ok, n := true, |selected|;
    }

    /** Part way through `_deleteSelected`: the items of `done` are
        deleted. `nodes0` and `edges0` are the lists, `socks` every node's
        sockets and `was` every socket's edge when the loop began; `anchored`
        and `mutual` say whether the scene then was; `gone` says whether
        every item of `done` is gone. */
    ghost predicate Deleting(done: seq<Item>, nodes0: seq<Node>, edges0: seq<Edge>, socks: map<Node, seq<Socket>>,
                             was: map<Socket, Edge?>, anchored: bool, mutual: bool, gone: bool)
      reads this, scene, scene.NodeSet, scene.SocketSet, scene.EdgeSet
    {
      var released := ReleasedByIn(socks, was, done);
      var deleting := Valid() && (mutual ==> anchored) &&
        (gone ==> forall j :: 0 <= j < |done| ==> Absent(done[j], scene.nodes, scene.edges)) &&
        (forall n :: n in nodes0 && NodeItem(n) !in done ==> n in scene.nodes) &&
        (forall n :: n in scene.nodes ==> n in nodes0) &&
        (forall e :: e in scene.edges ==> e in edges0) &&
        (forall e :: e in edges0 && e !in released ==> e in scene.edges) &&
        (forall s :: s in scene.SocketSet ==> s in was && (s.edge == null || s.edge == was[s])) &&
        (anchored ==> scene.Anchored()) &&
        (mutual ==> scene.Mutual() && (forall e :: e in released ==> e !in scene.edges) &&
                    forall s :: s in scene.SocketSet && s.edge == null && was[s] != null ==> was[s] !in scene.edges);
      deleting
    }

    /** One pass of `_deleteSelected`'s loop. Where it raises, the node
        was not listed at the start or was selected before. */
    method DeleteNext(selected: seq<Item>, k: nat, ghost nodes0: seq<Node>, ghost edges0: seq<Edge>, ghost socks: map<Node, seq<Socket>>,
                      ghost was: map<Socket, Edge?>, ghost anchored: bool, ghost mutual: bool) returns (ok: bool)
      requires k < |selected| && (forall j :: 0 <= j < |selected| ==> Picks(selected[j]))
      requires forall n :: n in scene.NodeSet ==> n in socks && socks[n] == n.inputs + n.outputs
      requires Deleting(selected[..k], nodes0, edges0, socks, was, anchored, mutual, true)
      modifies scene`nodes, scene`edges, scene.SocketSet`edge, scene.EdgeSet`start, scene.EdgeSet`end
      ensures Deleting(selected[..k + 1], nodes0, edges0, socks, was, anchored, mutual, ok)
      ensures !ok ==> selected[k].NodeItem? && (selected[k].node !in nodes0 || selected[k] in selected[..k])
    {
      if selected[k].NodeItem? {
        ok := DeleteNextNode(selected, k, nodes0, edges0, socks, was, anchored, mutual);
      } else {
        ok := DeleteNextEdge(selected, k, nodes0, edges0, socks, was, anchored, mutual);
      }
    }

    /** `DeleteNext` where the item is a node. */
    method DeleteNextNode(selected: seq<Item>, k: nat, ghost nodes0: seq<Node>, ghost edges0: seq<Edge>, ghost socks: map<Node, seq<Socket>>,
                          ghost was: map<Socket, Edge?>, ghost anchored: bool, ghost mutual: bool) returns (ok: bool)
      requires k < |selected| && Picks(selected[k]) && selected[k].NodeItem?
      requires forall n :: n in scene.NodeSet ==> n in socks && socks[n] == n.inputs + n.outputs
      requires Deleting(selected[..k], nodes0, edges0, socks, was, anchored, mutual, true)
      modifies scene`nodes, scene`edges, scene.SocketSet`edge, scene.EdgeSet`start, scene.EdgeSet`end
      ensures Deleting(selected[..k + 1], nodes0, edges0, socks, was, anchored, mutual, ok)
      ensures !ok ==> selected[k].NodeItem? && (selected[k].node !in nodes0 || selected[k] in selected[..k])
    {
      ghost var done := selected[..k];
      var item := selected[k];
      assert selected[..k + 1][..k] == done;
      ghost var released := ReleasedByIn(socks, was, done) + ReleasesIn(socks, was, item);
      assert ReleasedByIn(socks, was, selected[..k + 1]) == released;
      HeldWithin(item.node, socks, was, scene.edges);
      ghost var nodes1, edges1 := scene.nodes, scene.edges;
      ok := DeleteItem(item);
      AbsentShrinks(done, nodes1, edges1, scene.nodes, scene.edges);
      assert selected[..k + 1] == done + [item] && Absent(item, scene.nodes, scene.edges);
      assert forall e :: e in edges0 && e !in released ==> e in edges1;
      DeletingIntro(selected[..k + 1], nodes0, edges0, socks, was, anchored, mutual, ok);
    }

    /** `DeleteNext` where the item is an edge, a socket or anything else. */
    method DeleteNextEdge(selected: seq<Item>, k: nat, ghost nodes0: seq<Node>, ghost edges0: seq<Edge>, ghost socks: map<Node, seq<Socket>>,
                          ghost was: map<Socket, Edge?>, ghost anchored: bool, ghost mutual: bool) returns (ok: bool)
      requires k < |selected| && Picks(selected[k]) && !selected[k].NodeItem?
      requires Deleting(selected[..k], nodes0, edges0, socks, was, anchored, mutual, true)
      modifies scene`nodes, scene`edges, scene.SocketSet`edge, scene.EdgeSet`start, scene.EdgeSet`end
      ensures Deleting(selected[..k + 1], nodes0, edges0, socks, was, anchored, mutual, ok)
      ensures ok
    {
      ghost var done := selected[..k];
      var item := selected[k];
      assert selected[..k + 1][..k] == done;
      ghost var released := ReleasedByIn(socks, was, done) + ReleasesIn(socks, was, item);
      assert ReleasedByIn(socks, was, selected[..k + 1]) == released;
      ghost var nodes1, edges1 := scene.nodes, scene.edges;
      ok := DeleteItem(item);
      AbsentShrinks(done, nodes1, edges1, scene.nodes, scene.edges);
      assert forall e :: e in edges0 && e !in released ==> e in edges1;
      DeletingIntro(selected[..k + 1], nodes0, edges0, socks, was, anchored, mutual, ok);
    }

    /** `Deleting`, from its parts. */
    lemma DeletingIntro(done: seq<Item>, nodes0: seq<Node>, edges0: seq<Edge>, socks: map<Node, seq<Socket>>,
                        was: map<Socket, Edge?>, anchored: bool, mutual: bool, gone: bool)
      requires Valid() && (mutual ==> anchored)
      requires gone ==> forall j :: 0 <= j < |done| ==> Absent(done[j], scene.nodes, scene.edges)
      requires forall n :: n in nodes0 && NodeItem(n) !in done ==> n in scene.nodes
      requires forall n :: n in scene.nodes ==> n in nodes0
      requires forall e :: e in scene.edges ==> e in edges0
      requires forall e :: e in edges0 && e !in ReleasedByIn(socks, was, done) ==> e in scene.edges
      requires forall s :: s in scene.SocketSet ==> s in was && (s.edge == null || s.edge == was[s])
      requires anchored ==> scene.Anchored()
      requires mutual ==> scene.Mutual() && (forall e :: e in ReleasedByIn(socks, was, done) ==> e !in scene.edges) &&
                          forall s :: s in scene.SocketSet && s.edge == null && was[s] != null ==> was[s] !in scene.edges
      ensures Deleting(done, nodes0, edges0, socks, was, anchored, mutual, gone)
    {
    }

    /** What `Deleting` says, spelled out. */
    lemma DeletingDone(done: seq<Item>, nodes0: seq<Node>, edges0: seq<Edge>, socks: map<Node, seq<Socket>>,
                       was: map<Socket, Edge?>, anchored: bool, mutual: bool, gone: bool)
      requires Deleting(done, nodes0, edges0, socks, was, anchored, mutual, gone)
      ensures Valid() && (gone ==> forall j :: 0 <= j < |done| ==> Gone(done[j]))
      ensures forall n :: n in nodes0 && NodeItem(n) !in done ==> n in scene.nodes
      ensures forall n :: n in scene.nodes ==> n in nodes0 && (gone ==> NodeItem(n) !in done)
      ensures forall e :: e in scene.edges ==> e in edges0
      ensures forall e :: e in edges0 && e !in ReleasedByIn(socks, was, done) ==> e in scene.edges
      ensures forall s :: s in scene.SocketSet ==> s in was && (s.edge == null || s.edge == was[s])
      ensures anchored ==> scene.Anchored()
      ensures mutual ==> scene.Mutual() && forall e :: e in ReleasedByIn(socks, was, done) ==> e !in scene.edges
    {
    }

    /** One step of `_deleteSelected`: a selected edge is removed, a
        selected node is removed, anything else is skipped. `ok` is false
        where removing the node raises ValueError because it is not listed.
        Nothing is listed again and no other node leaves the list. */
    method DeleteItem(item: Item) returns (ok: bool)
      requires Valid() && Picks(item)
      modifies scene`nodes, scene`edges, scene.SocketSet`edge, scene.EdgeSet`start, scene.EdgeSet`end
      ensures Valid() && (ok ==> Gone(item))
      ensures ok == !(item.NodeItem? && item.node !in old(scene.nodes))
      ensures forall e :: e in scene.edges ==> e in old(scene.edges)
      ensures forall e :: e in old(scene.edges) && e !in old(Releases(item)) ==> e in scene.edges
      ensures forall s :: s in scene.SocketSet ==> s.edge == null || s.edge == old(s.edge)
      ensures forall n :: n in scene.nodes <==> n in old(scene.nodes) && item != NodeItem(n)
      ensures old(scene.Anchored()) ==> scene.Anchored()
      ensures old(scene.Mutual()) ==> scene.Mutual() && forall e :: e in old(Releases(item)) ==> e !in scene.edges
      ensures old(scene.Mutual()) ==> forall s :: s in scene.SocketSet && s.edge == null && old(s.edge) != null ==> old(s.edge) !in scene.edges
    {
      match item
      case EdgeItem(e) =>
        EraseNoDup(scene.edges, e);
        e.Remove();
        ok := true;
      case NodeItem(n) =>
        EraseNoDup(scene.nodes, n);
        ok := n.Remove();
      case _ =>
        ok := true;
    }
  }
}
