/** The scene clipboard (`node_editor/clipboard/scene_clipboard.py`) over the
    multi-edge scene. Saving keeps the records of the selected nodes and of
    those selected edges whose two ends are sockets of saved nodes; cutting
    saves, deletes the selection and stores a history stamp; pasting places
    new nodes (fresh ids) around the cursor, re-links the pasted edges through
    the table the nodes filled, and stores a history stamp. */
module Clipboard {
  import opened Wrappers
  import opened Lists
  import opened Records
  import opened Layout
  import opened MultiEdgeGraph
  import opened Selection
  import opened History

  /** The document `_save` builds: the records of the saved nodes and of the
      edges kept, each in selection order. */
  datatype Clip = Clip(nodes: seq<NodeRecord>, edges: seq<EdgeRecord>)

  /** A document `paste` is handed once its text is parsed: either key may
      be missing. Text that does not parse is `None` at the call. */
  datatype ClipText = ClipText(nodes: Option<seq<NodeRecord>>, edges: Option<seq<EdgeRecord>>)

  /** How `paste` ends: it returns False (nothing created), it raises part
      way, or it returns True. */
  datatype PasteResult = Refused | Raised | Pasted

  // ---------------- _save ----------------

  lemma IdsConcat(a: seq<SocketRecord>, b: seq<SocketRecord>)
    ensures Ids(a + b) == Ids(a) + Ids(b)
  {
    assert forall r :: r in a + b <==> r in a || r in b;
  }

  lemma {:induction false} SocketDocsConcat(a: seq<Socket>, b: seq<Socket>)
    ensures SocketDocs(a + b) == SocketDocs(a) + SocketDocs(b)
  {
    if b == [] {
      assert a + b == a;
    } else {
      var n := |b| - 1;
      SocketDocsConcat(a, b[..n]);
      assert (a + b)[..|a| + n] == a + b[..n];
      assert (a + b)[|a| + n] == b[n];
      assert SocketDocs(b) == SocketDocs(b[..n]) + [b[n].Doc()];
    }
  }

  /** The keys of `socket_map` once the given nodes are saved: the ids of
      all of their socket records. */
  function MapKeys(docs: seq<NodeRecord>): set<int>
  {
    if docs == [] then {}
    else
      var n := |docs| - 1;
      MapKeys(docs[..n]) + Ids(docs[n].inputs) + Ids(docs[n].outputs)
  }

  /** An id is a key exactly when some saved node has a socket with it. */
  lemma {:induction false} MapKeysMembers(docs: seq<NodeRecord>, k: int)
    ensures k in MapKeys(docs) <==> exists i :: 0 <= i < |docs| && (k in Ids(docs[i].inputs) || k in Ids(docs[i].outputs))
  {
    if docs != [] {
      var n := |docs| - 1;
      MapKeysMembers(docs[..n], k);
      if exists i :: 0 <= i < |docs| && (k in Ids(docs[i].inputs) || k in Ids(docs[i].outputs)) {
        var i :| 0 <= i < |docs| && (k in Ids(docs[i].inputs) || k in Ids(docs[i].outputs));
        if i < n {
          assert docs[..n][i] == docs[i];
        }
      }
      if k in MapKeys(docs[..n]) {
        var i :| 0 <= i < n && (k in Ids(docs[..n][i].inputs) || k in Ids(docs[..n][i].outputs));
        assert docs[..n][i] == docs[i];
      }
    }
  }

  lemma MapKeysAppend(docs: seq<NodeRecord>, d: NodeRecord)
    ensures MapKeys(docs + [d]) == MapKeys(docs) + Ids(d.inputs) + Ids(d.outputs)
  {
    assert (docs + [d])[..|docs|] == docs;
  }

  /** What the filter of `_save` does with one selected edge. The test reads
      the start's id first and only then the end's, so a missing start
      raises, a start off the saved nodes drops the edge before the end is
      looked at, and otherwise a missing end raises. */
  datatype Verdict = Keep | Drop | Raise

  function VerdictOf(e: Edge, keys: set<int>): Verdict
    reads e`start, e`end
  {
    if e.start == null then Raise
    else if e.start.id !in keys then Drop
    else if e.end == null then Raise
    else if e.end.id in keys then Keep
    else Drop
  }

  /** The edge filter of `_save`: the records of the kept edges, in order,
      or `None` when one of the edges raises. A kept record has both ends
      among the keys and is the record of a selected edge; every edge with
      both ends among the keys is kept. */
  function Kept(es: seq<Edge>, keys: set<int>): (r: Option<seq<EdgeRecord>>)
    reads es
    ensures r.None? <==> exists j :: 0 <= j < |es| && VerdictOf(es[j], keys) == Raise
  {
    if es == [] then Some([])
    else
      var n := |es| - 1;
      var init := es[..n];
      assert forall j :: 0 <= j < n ==> init[j] == es[j];
      match Kept(init, keys)
      case None => None
      case Some(done) =>
        match VerdictOf(es[n], keys)
        case Raise => None
        case Drop => Some(done)
        case Keep => Some(done + [es[n].Doc().value])
  }

  /** A kept record has both ends among the keys and is the record of one
      of the edges; every edge whose verdict is to keep it is kept. */
  lemma {:induction false} KeptRecords(es: seq<Edge>, keys: set<int>)
    requires Kept(es, keys).Some?
    ensures forall k :: 0 <= k < |Kept(es, keys).value| ==> Kept(es, keys).value[k].start in keys && Kept(es, keys).value[k].end in keys
    ensures forall k :: 0 <= k < |Kept(es, keys).value| ==> exists j :: 0 <= j < |es| && es[j].Doc() == Some(Kept(es, keys).value[k])
    ensures forall j :: 0 <= j < |es| && VerdictOf(es[j], keys) == Keep ==> es[j].Doc().value in Kept(es, keys).value
  {
    if es != [] {
      var n := |es| - 1;
      var init := es[..n];
      assert forall j :: 0 <= j < n ==> init[j] == es[j];
      KeptRecords(init, keys);
    }
  }

  /** What `_save` returns for a selection: the records of the selected
      nodes, and the kept records of the selected edges against the ids of
      those nodes' sockets; `None` where it raises. */
  function ClipOf(sel: seq<Pick>): Option<Clip>
    reads PickedNodes(sel), PickedEdges(sel)
  {
    var saved := NodeDocs(PickedNodes(sel));
    match Kept(PickedEdges(sel), MapKeys(saved))
    case None => None
    case Some(es) => Some(Clip(saved, es))
  }

  /** Edge records whose ends are all keys of the saved node records
      resolve against those records, provided no node's id is also the id of
      an edge's end. */
  lemma KeyedEdgesResolve(nodes: seq<NodeRecord>, edges: seq<EdgeRecord>)
    requires forall j :: 0 <= j < |edges| ==> edges[j].start in MapKeys(nodes) && edges[j].end in MapKeys(nodes)
    requires forall i, j :: 0 <= i < |nodes| && 0 <= j < |edges| ==> nodes[i].id != edges[j].start && nodes[i].id != edges[j].end
    ensures AllResolve(nodes, edges)
  {
    forall j | 0 <= j < |edges|
      ensures Resolves(nodes, edges[j])
    {
      var e := edges[j];
      MapKeysMembers(nodes, e.start);
      MapKeysMembers(nodes, e.end);
      KindAfterSocket(nodes, e.start);
      KindAfterSocket(nodes, e.end);
    }
  }

  /** A saved edge ends at sockets of saved nodes: when no saved node's id
      is also the id of an edge's end (Python's ids of live objects never
      coincide), every saved edge record resolves against the saved node
      records, so pasting the document reads every one of its edges. */
  lemma SavedEdgesResolve(sel: seq<Pick>)
    requires ClipOf(sel).Some?
    requires var clip := ClipOf(sel).value;
             forall i, j :: 0 <= i < |clip.nodes| && 0 <= j < |clip.edges| ==>
               clip.nodes[i].id != clip.edges[j].start && clip.nodes[i].id != clip.edges[j].end
    ensures AllResolve(ClipOf(sel).value.nodes, ClipOf(sel).value.edges)
  {
    var clip := ClipOf(sel).value;
    KeptRecords(PickedEdges(sel), MapKeys(clip.nodes));
    KeyedEdgesResolve(clip.nodes, clip.edges);
  }

  // ---------------- paste: bounding box and offset ----------------

  datatype Box = Box(minX: real, minY: real, maxX: real, maxY: real)

  /** One step of the bounds loop of `paste`: each of the four bounds moves
      out to the position when it lies beyond it. */
  function Grow(b: Box, x: real, y: real): Box
  {
    Box(if x < b.minX then x else b.minX, if y < b.minY then y else b.minY,
        if x > b.maxX then x else b.maxX, if y > b.maxY then y else b.maxY)
  }

  /** The bounds after the loop, seeded at the origin: they contain the
      origin and every node's position. */
  function BoxOf(recs: seq<NodeRecord>): (b: Box)
    ensures b.minX <= 0.0 <= b.maxX && b.minY <= 0.0 <= b.maxY
    ensures forall k :: 0 <= k < |recs| ==> b.minX <= recs[k].posX <= b.maxX && b.minY <= recs[k].posY <= b.maxY
  {
    if recs == [] then Box(0.0, 0.0, 0.0, 0.0)
    else
      var n := |recs| - 1;
      assert forall k :: 0 <= k < n ==> recs[..n][k] == recs[k];
      Grow(BoxOf(recs[..n]), recs[n].posX, recs[n].posY)
  }

  /** The bounds are tight around the origin and the positions: each is 0 or
      some node's coordinate. */
  lemma {:induction false} BoxTight(recs: seq<NodeRecord>)
    ensures var b := BoxOf(recs);
            (b.minX == 0.0 || exists k :: 0 <= k < |recs| && recs[k].posX == b.minX) &&
            (b.maxX == 0.0 || exists k :: 0 <= k < |recs| && recs[k].posX == b.maxX) &&
            (b.minY == 0.0 || exists k :: 0 <= k < |recs| && recs[k].posY == b.minY) &&
            (b.maxY == 0.0 || exists k :: 0 <= k < |recs| && recs[k].posY == b.maxY)
  {
    if recs != [] {
      var n := |recs| - 1;
      BoxTight(recs[..n]);
      assert forall k :: 0 <= k < n ==> recs[..n][k] == recs[k];
    }
  }

  /** The bounds loop of `paste`. */
  method Bounds(recs: seq<NodeRecord>) returns (b: Box)
    ensures b == BoxOf(recs)
  {
    b := Box(0.0, 0.0, 0.0, 0.0);
    for k := 0 to |recs|
      invariant b == BoxOf(recs[..k])
    {
      TakeNext(recs, k);
      assert recs[..k + 1][..k] == recs[..k];
      var x, y := recs[k].posX, recs[k].posY;
      if x < b.minX {
        b := b.(minX := x);
      }
      if x > b.maxX {
        b := b.(maxX := x);
      }
      if y < b.minY {
        b := b.(minY := y);
      }
      if y > b.maxY {
        b := b.(maxY := y);
      }
    }
    assert recs[..|recs|] == recs;
  }

  /** The offset of the pasted nodes: the cursor less the box's centre. */
  function Offset(b: Box, cursor: Point): (d: Point)
    ensures (b.minX + d.x + b.maxX + d.x) / 2.0 == cursor.x && (b.minY + d.y + b.maxY + d.y) / 2.0 == cursor.y
  {
    Point(cursor.x - (b.minX + b.maxX) / 2.0, cursor.y - (b.minY + b.maxY) / 2.0)
  }

  /** A pasted node: what deserializing `rec` without `restore` gives, moved
      by the offset. */
  predicate PlacedAt(doc: NodeRecord, rec: NodeRecord, d: Point)
  {
    var placed := NodeLoaded(doc.(posX := rec.posX, posY := rec.posY), rec, false) &&
                  doc.posX == rec.posX + d.x && doc.posY == rec.posY + d.y;
    placed
  }

  /** The nodes `paste` created: `before` is the list it started from,
      and each new node, in order, is the record placed by the offset. */
  ghost predicate NodesPasted(scene: Scene, before: seq<Node>, recs: seq<NodeRecord>, d: Point)
    reads scene`nodes, scene.nodes
  {
    |scene.nodes| == |before| + |recs| && scene.nodes[..|before|] == before &&
    forall i :: 0 <= i < |recs| ==> PlacedAt(scene.nodes[|before| + i].Doc(), recs[i], d)
  }

  /** The state the node loop of `paste` keeps: the nodes of the scene are
      `before` and then one node per record of `done`, each with the record
      in `docs` (the record of `done` placed by the offset) and the sockets
      the table `h` names. */
  ghost predicate Pasting(scene: Scene, h: HashMap, before: seq<Node>, done: seq<NodeRecord>, docs: seq<NodeRecord>,
                          ins: seq<seq<Socket>>, outs: seq<seq<Socket>>, d: Point)
    reads scene`nodes, scene`SocketSet, scene.nodes
  {
    var pasting := Indexes(h, done, false, scene.SocketSet) && |before| <= |scene.nodes| && scene.nodes[..|before|] == before &&
                   Shows(scene, |before|, docs) && Placed(docs, done, d) && scene.Building(h, |before|, done, ins, outs);
    pasting
  }

  /** Before the node loop of `paste` nothing is pasted and the table is
      empty. */
  lemma PastingStart(scene: Scene, d: Point)
    ensures Pasting(scene, map[], scene.nodes, [], [], [], [], d)
  {
    assert scene.nodes[|scene.nodes|..] == [] && scene.nodes[..|scene.nodes|] == scene.nodes;
  }

  /** When the loop has passed every record, the nodes it added are the
      pasted nodes and the table names their sockets. */
  lemma PastingDone(scene: Scene, h: HashMap, before: seq<Node>, recs: seq<NodeRecord>, docs: seq<NodeRecord>,
                    ins: seq<seq<Socket>>, outs: seq<seq<Socket>>, d: Point)
    requires Pasting(scene, h, before, recs, docs, ins, outs, d)
    ensures Indexes(h, recs, false, scene.SocketSet) && scene.Tabled(h, |before|, recs)
    ensures NodesPasted(scene, before, recs, d)
  {
    scene.BuildingTabled(h, |before|, recs, ins, outs);
  }

  /** The nodes listed from position `from` on have the records `docs`. */
  ghost predicate Shows(scene: Scene, from: nat, docs: seq<NodeRecord>)
    reads scene`nodes, scene.nodes
  {
    var shows := from + |docs| == |scene.nodes| && forall j :: 0 <= j < |docs| ==> scene.nodes[from + j].Doc() == docs[j];
    shows
  }

  /** Each record of `docs` is the matching record of `recs` placed by the
      offset. */
  predicate Placed(docs: seq<NodeRecord>, recs: seq<NodeRecord>, d: Point)
  {
    |docs| == |recs| && forall i :: 0 <= i < |recs| ==> PlacedAt(docs[i], recs[i], d)
  }

  lemma PlacedNext(docs: seq<NodeRecord>, recs: seq<NodeRecord>, d: Point, doc: NodeRecord, rec: NodeRecord)
    requires Placed(docs, recs, d) && PlacedAt(doc, rec, d)
    ensures Placed(docs + [doc], recs + [rec], d)
  {
  }

  /** Every node of a selection is in the scene's node arena and every edge
      in its edge arena. */
  ghost predicate InArenas(scene: Scene, sel: seq<Pick>)
    reads scene
  {
    forall k :: 0 <= k < |sel| ==>
      (sel[k].PickedNode? ==> sel[k].node in scene.NodeSet) && (sel[k].PickedEdge? ==> sel[k].edge in scene.EdgeSet)
  }

  /** Part way through deleting a selection: `done` is deleted, `gone`
      is what it detached, read off the lists `start` recorded; exactly
      the nodes of `nodes0` not picked in `done` are listed, and the scene
      is `edges0` and `start` pruned of `gone`. */
  ghost predicate Deleting(scene: Scene, done: seq<Pick>, start: map<Socket, seq<Edge>>, edges0: seq<Edge>, nodes0: seq<Node>, gone: set<Edge>)
    reads scene, scene.SocketSet, set k | 0 <= k < |done| && done[k].PickedNode? :: done[k].node
  {
    var deleting := gone == DetachedAllIn(start, done) &&
      (forall n :: n in scene.nodes ==> n in nodes0 && n !in PickedNodes(done)) &&
      (forall n :: n in nodes0 && n !in PickedNodes(done) ==> n in scene.nodes) &&
      scene.Pruned(start, edges0, gone);
    deleting
  }

  /** What `Deleting` says, once the whole selection is deleted. */
  lemma DeletingDone(scene: Scene, sel: seq<Pick>, start: map<Socket, seq<Edge>>, edges0: seq<Edge>, nodes0: seq<Node>, gone: set<Edge>)
    requires Deleting(scene, sel, start, edges0, nodes0, gone)
    ensures forall n :: n in scene.nodes <==> n in nodes0 && n !in PickedNodes(sel)
    ensures forall e :: e in scene.edges <==> e in edges0 && e !in gone
    ensures forall s :: s in scene.SocketSet ==> s in start && s.edges == Without(start[s], gone)
  {
  }

  lemma SaveStep(sel: seq<Pick>, j: nat)
    requires j < |sel|
    ensures NodeDocs(PickedNodes(sel[..j + 1])) == NodeDocs(PickedNodes(sel[..j])) + (if sel[j].PickedNode? then [sel[j].node.Doc()] else [])
    ensures PickedEdges(sel[..j + 1]) == PickedEdges(sel[..j]) + (if sel[j].PickedEdge? then [sel[j].edge] else [])
  {
    var init, p := sel[..j], sel[j];
    assert sel[..j + 1] == init + [p];
    PickedNodesAppend(init, p);
    PickedEdgesAppend(init, p);
    if p.PickedNode? {
      NodeDocsAppend(PickedNodes(init), p.node);
    } else {
      assert PickedNodes(init + [p]) == PickedNodes(init);
    }
    if !p.PickedEdge? {
      assert PickedEdges(init + [p]) == PickedEdges(init);
    }
  }

  /** What the node loop of `_save` has built once it read `done`: the
      records of its nodes, its edges, and the keys of those records. */
  ghost predicate Saving(done: seq<Pick>, saved: seq<NodeRecord>, edges: seq<Edge>, keys: set<int>)
    reads PickedNodes(done)
  {
    var saving := saved == NodeDocs(PickedNodes(done)) && edges == PickedEdges(done) && keys == MapKeys(saved);
    saving
  }

  /** One pass of the node loop of `_save` keeps `Saving`. */
  lemma SaveNext(sel: seq<Pick>, j: nat, saved: seq<NodeRecord>, edges: seq<Edge>, keys: set<int>,
                 saved': seq<NodeRecord>, edges': seq<Edge>, keys': set<int>)
    requires j < |sel| && Saving(sel[..j], saved, edges, keys)
    requires saved' == saved + (if sel[j].PickedNode? then [sel[j].node.Doc()] else [])
    requires edges' == edges + (if sel[j].PickedEdge? then [sel[j].edge] else [])
    requires keys' == if sel[j].PickedNode? then keys + Ids(sel[j].node.Doc().inputs) + Ids(sel[j].node.Doc().outputs) else keys
    ensures Saving(sel[..j + 1], saved', edges', keys')
  {
    SaveStep(sel, j);
    assert keys == MapKeys(saved);
    if sel[j].PickedNode? {
      MapKeysAppend(saved, sel[j].node.Doc());
    } else {
      assert saved' == saved;
    }
    assert saved' == NodeDocs(PickedNodes(sel[..j + 1])) && edges' == PickedEdges(sel[..j + 1]) && keys' == MapKeys(saved');
  }

  lemma {:induction false} SocketDocsAt(ss: seq<Socket>)
    ensures forall i :: 0 <= i < |ss| ==> SocketDocs(ss)[i] == ss[i].Doc()
  {
    if ss != [] {
      var n := |ss| - 1;
      SocketDocsAt(ss[..n]);
    }
  }

  /** The ids of a list of sockets are those of their records. */
  lemma SocketIds(ss: seq<Socket>)
    ensures (set i | 0 <= i < |ss| :: ss[i].id) == Ids(SocketDocs(ss))
  {
    SocketDocsAt(ss);
  }

  /** The ids the inner loop of `_save` enters for a node are those of its
      socket records. */
  lemma NodeKeys(n: Node)
    ensures Ids(SocketDocs(n.inputs + n.outputs)) == Ids(n.Doc().inputs) + Ids(n.Doc().outputs)
  {
    SocketDocsConcat(n.inputs, n.outputs);
    IdsConcat(SocketDocs(n.inputs), SocketDocs(n.outputs));
  }

  lemma ClipOfParts(sel: seq<Pick>, saved: seq<NodeRecord>, edges: seq<Edge>, keys: set<int>)
    requires saved == NodeDocs(PickedNodes(sel)) && edges == PickedEdges(sel) && keys == MapKeys(saved)
    ensures Kept(edges, keys).None? ==> ClipOf(sel).None?
    ensures Kept(edges, keys).Some? ==> ClipOf(sel) == Some(Clip(saved, Kept(edges, keys).value))
  {
  }

  /** The node loop of `_save`: the records of the selected nodes, the
      selected edges, and the keys of `socket_map`. */
  method SaveNodes(sel: seq<Pick>) returns (saved: seq<NodeRecord>, edges: seq<Edge>, keys: set<int>)
    ensures saved == NodeDocs(PickedNodes(sel)) && edges == PickedEdges(sel) && keys == MapKeys(saved)
  {
    saved, edges, keys := [], [], {};
    for j := 0 to |sel|
      invariant Saving(sel[..j], saved, edges, keys)
    {
      ghost var saved0, edges0, keys0 := saved, edges, keys;
      match sel[j] {
        case PickedNode(n) =>
          var doc := n.Doc();
          var sockets := n.inputs + n.outputs;
          for m := 0 to |sockets|
            invariant keys == keys0 + set i | 0 <= i < m :: sockets[i].id
          {
            keys := keys + {sockets[m].id};
          }
          SocketIds(sockets);
          NodeKeys(n);
          saved := saved + [doc];
        case PickedEdge(e) =>
          edges := edges + [e];
        case PickedOther =>
      }
      SaveNext(sel, j, saved0, edges0, keys0, saved, edges, keys);
    }
    assert sel[..|sel|] == sel;
  }

  /** `_save`: the node loop records each selected node and enters its
      sockets' ids, the edge loop keeps the selected edges with both ends
      entered. `copy` is this followed by JSON encoding. */
  method Save(sel: seq<Pick>) returns (clip: Option<Clip>)
    ensures clip == ClipOf(sel)
  {
    var saved, edges, keys := SaveNodes(sel);
    var kept := KeepEdges(edges, keys, PickedNodes(sel), saved);
    ClipOfParts(sel, saved, edges, keys);
    clip := if kept.Some? then Some(Clip(saved, kept.value)) else None;
  }

  /** `copy`: the document `_save` makes of the selection as it stands,
      before JSON encoding. Nothing in the scene changes. */
  method Copy(sel: seq<Pick>) returns (clip: Option<Clip>)
    ensures clip == old(ClipOf(sel))
  {
    ghost var saved := NodeDocs(PickedNodes(sel));
    ghost var kept := Kept(PickedEdges(sel), MapKeys(saved));
    PickedFrom(sel);
    clip := Save(sel);
    assert saved == NodeDocs(PickedNodes(sel)) && kept == Kept(PickedEdges(sel), MapKeys(saved));
  }

  /** The edge loop of `_save`: it stops at the first edge that raises. The
      ghost parameters carry the saved node records across the call. */
  method KeepEdges(edges: seq<Edge>, keys: set<int>, ghost nodes: seq<Node>, ghost saved: seq<NodeRecord>) returns (kept: Option<seq<EdgeRecord>>)
    requires saved == NodeDocs(nodes)
    ensures kept == Kept(edges, keys) && saved == NodeDocs(nodes)
  {
    var records: seq<EdgeRecord> := [];
    for k := 0 to |edges|
      invariant Kept(edges[..k], keys) == Some(records)
    {
      // No calls here either: the heap stays the one the invariant reads.
      assert edges[..k + 1][..k] == edges[..k];
      var e := edges[k];
      if e.start == null {
        assert VerdictOf(edges[k], keys) == Raise;
        return None;
      }
      if e.start.id in keys {
        if e.end == null {
          assert VerdictOf(edges[k], keys) == Raise;
          return None;
        }
        if e.end.id in keys {
          records := records + [e.Doc().value];
        }
      }
    }
    assert edges[..|edges|] == edges;
    kept := Some(records);
  }

  const CUT_DESCRIPTION := "Cutting items into clipboard"
  const PASTE_DESCRIPTION := "Pasting items from clipboard"

  /** A selected node is in the scene's node arena, a selected edge in its
      edge arena. */
  ghost predicate InArena(scene: Scene, p: Pick)
    reads scene
  {
    (p.PickedNode? ==> p.node in scene.NodeSet) && (p.PickedEdge? ==> p.edge in scene.EdgeSet)
  }

  class SceneClipboard {
    const scene: Scene
    /** The scene's history, which the clipboard reaches as `scene.history`. */
    const history: SceneHistory

    ghost predicate Valid()
      reads history
    {
      history.scene == scene && history.Valid()
    }

    constructor(scene: Scene, history: SceneHistory)
      requires history.scene == scene && history.Valid()
      ensures Valid() && this.scene == scene && this.history == history
    {
      this.scene := scene;
      this.history := history;
    }

    /** One step of the view's `_deleteSelected`: a selected edge is
        removed, a selected node is removed with its edges, anything else is
        skipped. No other node leaves the list and no edge joins it. */
    method DeleteItem(p: Pick)
      requires scene.Sound() && InArena(scene, p)
      modifies scene`nodes, scene`edges, scene.bindings, scene.EdgeSet, scene.SocketSet
      ensures scene.Sound()
      ensures forall n :: n in scene.nodes <==> n in old(scene.nodes) && p != PickedNode(n)
      ensures forall e :: e in scene.edges <==> e in old(scene.edges) && e !in old(Detached(p))
      ensures forall s :: s in scene.SocketSet ==> s.edges == Without(old(s.edges), old(Detached(p)))
    {
      match p
      case PickedEdge(e) =>
        assert scene.Valid();
        e.Remove();
        EraseNoDup(old(scene.edges), e);
        forall s | s in scene.SocketSet
          ensures s.edges == Without(old(s.edges), {e})
        {
          RemoveAllWithout(old(s.edges), e);
        }
      case PickedNode(n) =>
        EraseNoDup(scene.nodes, n);
        n.Remove();
      case PickedOther =>
        forall s | s in scene.SocketSet
          ensures s.edges == Without(s.edges, {})
        {
          WithoutNothing(s.edges);
        }
    }

    /** `DeleteItem`, against the lists the scene started with: after the
        edges in `gone`, the pick takes out what `start` lists for it. */
    method DeleteStep(p: Pick, ghost start: map<Socket, seq<Edge>>, ghost edges0: seq<Edge>, ghost gone: set<Edge>)
      requires scene.Sound() && InArena(scene, p) && scene.Pruned(start, edges0, gone)
      modifies scene`nodes, scene`edges, scene.bindings, scene.EdgeSet, scene.SocketSet
      ensures scene.Sound() && scene.Pruned(start, edges0, gone + DetachedIn(start, p))
      ensures forall n :: n in scene.nodes <==> n in old(scene.nodes) && p != PickedNode(n)
    {
      if p.PickedNode? {
        assert forall s :: s in p.node.inputs + p.node.outputs ==> s in scene.SocketSet;
        AttachedPruned(p.node, start, gone);
      }
      ghost var d := Detached(p);
      assert gone + d == gone + DetachedIn(start, p);
      DeleteItem(p);
      forall s | s in scene.SocketSet
        ensures s.edges == Without(start[s], gone + d)
      {
        WithoutTwice(start[s], gone, d);
      }
    }

    /** One pass of `DeleteSelected`'s loop: the next pick is deleted, and
        `Deleting` moves on by one pick. */
    method DeleteNext(sel: seq<Pick>, k: nat, ghost start: map<Socket, seq<Edge>>, ghost edges0: seq<Edge>, ghost nodes0: seq<Node>, ghost gone: set<Edge>)
      requires k < |sel| && scene.Sound() && InArenas(scene, sel) && Deleting(scene, sel[..k], start, edges0, nodes0, gone)
      modifies scene`nodes, scene`edges, scene.bindings, scene.EdgeSet, scene.SocketSet
      ensures scene.Sound() && Deleting(scene, sel[..k + 1], start, edges0, nodes0, gone + DetachedIn(start, sel[k]))
    {
      assert sel[..k + 1][..k] == sel[..k];
      PickedStep(sel, k);
      DeleteStep(sel[k], start, edges0, gone);
    }

    /** The view's `_deleteSelected` over the scene's selection: afterwards
        exactly the unselected nodes are listed, and every listed edge was
        listed before and is not a selected one. */
    method DeleteSelected(sel: seq<Pick>)
      requires scene.Sound() && InArenas(scene, sel)
      modifies scene`nodes, scene`edges, scene.bindings, scene.EdgeSet, scene.SocketSet
      ensures scene.Sound()
      ensures forall n :: n in scene.nodes <==> n in old(scene.nodes) && n !in PickedNodes(sel)
      ensures forall e :: e in scene.edges <==> e in old(scene.edges) && e !in old(DetachedAll(sel))
      ensures forall s :: s in scene.SocketSet ==> s.edges == Without(old(s.edges), old(DetachedAll(sel)))
    {
      ghost var start := map s | s in scene.SocketSet :: s.edges;
      ghost var gone: set<Edge> := {};
      forall s | s in scene.SocketSet
        ensures s.edges == Without(start[s], gone)
      {
        WithoutNothing(s.edges);
      }
      forall k, s | 0 <= k < |sel| && sel[k].PickedNode? && s in sel[k].node.inputs + sel[k].node.outputs
        ensures s in start && s.edges == Without(start[s], {})
      {
        assert scene.Valid();
      }
      DetachedAllAt(start, sel);
      ghost var all := DetachedAll(sel);
      DeleteEach(sel, start, old(scene.edges), old(scene.nodes), all);
      DeletingDone(scene, sel, start, old(scene.edges), old(scene.nodes), all);
      forall s | s in scene.SocketSet
        ensures s.edges == Without(old(s.edges), all)
      {
        assert start[s] == old(s.edges);
      }
    }

    /** `DeleteNext` over the whole selection. */
    method DeleteEach(sel: seq<Pick>, ghost start: map<Socket, seq<Edge>>, ghost edges0: seq<Edge>, ghost nodes0: seq<Node>, ghost all: set<Edge>)
      requires scene.Sound() && InArenas(scene, sel) && Deleting(scene, [], start, edges0, nodes0, {})
      requires all == DetachedAllIn(start, sel)
      modifies scene`nodes, scene`edges, scene.bindings, scene.EdgeSet, scene.SocketSet
      ensures scene.Sound() && Deleting(scene, sel, start, edges0, nodes0, all)
    {
      ghost var gone: set<Edge> := {};
      assert sel[..0] == [];
      for k := 0 to |sel|
        invariant scene.Sound() && Deleting(scene, sel[..k], start, edges0, nodes0, gone)
      {
        DeleteNext(sel, k, start, edges0, nodes0, gone);
        gone := gone + DetachedIn(start, sel[k]);
      }
      assert sel[..|sel|] == sel;
    }

    /** `cut`: the selection is saved, then deleted, then one stamp is
        stored with the scene marked modified. Where saving raises nothing
        has changed; where storing raises (`stored` false) the items are
        gone but no stamp was pushed. Nothing is selected once the items are
        gone, so the stamp records no selection. */
    method Cut(sel: seq<Pick>) returns (clip: Option<Clip>, stored: bool)
      requires Valid() && scene.Sound() && InArenas(scene, sel)
      modifies scene`nodes, scene`edges, scene.bindings, scene.EdgeSet, scene.SocketSet
      modifies scene`modified, scene`notified, history`stack, history`ptr
      ensures Valid() && scene.Sound() && clip == old(ClipOf(sel))
      ensures clip.None? ==> !stored && scene.nodes == old(scene.nodes) && scene.edges == old(scene.edges) &&
                             scene.modified == old(scene.modified) && history.stack == old(history.stack) && history.ptr == old(history.ptr)
      ensures clip.Some? ==> forall n :: n in scene.nodes <==> n in old(scene.nodes) && n !in PickedNodes(sel)
      ensures clip.Some? ==> forall e :: e in scene.edges <==> e in old(scene.edges) && e !in old(DetachedAll(sel))
      ensures clip.Some? ==> forall s :: s in scene.SocketSet ==> s.edges == Without(old(s.edges), old(DetachedAll(sel)))
      ensures clip.Some? ==> scene.modified && stored == StampOf(scene, CUT_DESCRIPTION, []).Some?
      ensures clip.Some? && stored ==> (history.stack, history.ptr) == Pushed(old(history.stack), old(history.ptr), StampOf(scene, CUT_DESCRIPTION, []).value)
      ensures clip.Some? && !stored ==> (history.stack, history.ptr) == Room(old(history.stack), old(history.ptr))
    {
      clip := Copy(sel);
      if clip.None? {
        return clip, false;
      }
      DetachedAllFramed(sel);
      DeleteSelected(sel);
      ghost var lists := map s | s in scene.SocketSet :: s.edges;
      stored := history.Store(CUT_DESCRIPTION, true, []);
      assert forall s :: s in scene.SocketSet ==> s.edges == lists[s];
    }

    /** `cut` as written: once `_save` has made the document, the call
        `grScene.view()[0].deleteSelected()` raises AttributeError, because
        the graphics scene offers `views()` and the view offers only
        `_deleteSelected`. So nothing is deleted, no stamp is stored and the
        document never reaches the caller; `clip` is the document `_save`
        made (or `None` where `_save` itself raised). */
    method CutAsWritten(sel: seq<Pick>) returns (clip: Option<Clip>, raised: bool)
      ensures raised && clip == ClipOf(sel)
    {
      clip := Save(sel);
      raised := true;
    }

    /** One pass of the node loop of `paste`: `Node(scene)` deserialized
        from the record without `restore`, then moved by the offset; the
        nodes before it keep their records. */
    method PasteNode(rec: NodeRecord, hashmap: HashMap, d: Point, ghost prev: seq<NodeRecord>, ghost from: nat,
                     ghost ins: seq<seq<Socket>>, ghost outs: seq<seq<Socket>>, ghost docs: seq<NodeRecord>) returns (n: Node, h: HashMap)
      requires scene.Sound() && Indexes(hashmap, prev, false, scene.SocketSet)
      requires scene.Building(hashmap, from, prev, ins, outs) && Shows(scene, from, docs)
      modifies scene`nodes, scene`NodeSet, scene`SocketSet, scene.bindings, scene.ids
      ensures scene.Sound() && fresh(scene.SocketSet - old(scene.SocketSet))
      ensures fresh(n) && scene.nodes == old(scene.nodes) + [n] && PlacedAt(n.Doc(), rec, d)
      ensures Indexes(h, prev + [rec], false, scene.SocketSet) && Shows(scene, from, docs + [n.Doc()])
      ensures scene.Building(h, from, prev + [rec], ins + [n.inputs], outs + [n.outputs])
    {
      n, h := PlaceBlank(rec, hashmap, d, prev);
      forall j | 0 <= j < |prev|
        ensures scene.nodes[from + j].inputs == ins[j] && scene.nodes[from + j].outputs == outs[j]
        ensures scene.nodes[from + j].Doc() == docs[j]
      {
        assert from + j < |old(scene.nodes)|;
      }
      assert scene.nodes[from..|scene.nodes| - 1] == old(scene.nodes[from..]);
      scene.BuildingStep(hashmap, from, prev, ins, outs, n, rec);
    }

    /** The two steps of `PasteNode`: the node is deserialized, then moved
        by the offset. */
    method PlaceBlank(rec: NodeRecord, hashmap: HashMap, d: Point, ghost prev: seq<NodeRecord>) returns (n: Node, h: HashMap)
      requires scene.Sound() && Indexes(hashmap, prev, false, scene.SocketSet)
      modifies scene`nodes, scene`NodeSet, scene`SocketSet, scene.bindings, scene.ids
      ensures scene.Sound() && fresh(scene.SocketSet - old(scene.SocketSet))
      ensures fresh(n) && scene.nodes == old(scene.nodes) + [n] && PlacedAt(n.Doc(), rec, d) && unchanged(old(scene.nodes))
      ensures forall j :: 0 <= j < |old(scene.nodes)| ==>
                scene.nodes[j].inputs == old(scene.nodes[j].inputs) && scene.nodes[j].outputs == old(scene.nodes[j].outputs) &&
                scene.nodes[j].Doc() == old(scene.nodes[j].Doc())
      ensures Indexes(h, prev + [rec], false, scene.SocketSet)
      ensures |n.inputs| == |rec.inputs| && |n.outputs| == |rec.outputs| && h == Entered(hashmap, n, rec, n.inputs, n.outputs)
    {
      n, h := scene.LoadBlank(rec, hashmap, false, prev);
      ghost var loaded := n.Doc();
      n.SetPos(n.posX + d.x, n.posY + d.y);
      assert n.Doc().(posX := rec.posX, posY := rec.posY) == loaded;
    }

    /** One pass of the node loop of `paste`, in the terms of the state
        the loop keeps. */
    method PasteStep(recs: seq<NodeRecord>, k: nat, hashmap: HashMap, d: Point, ghost before: seq<Node>,
                     ghost docs: seq<NodeRecord>, ghost ins: seq<seq<Socket>>, ghost outs: seq<seq<Socket>>) returns (n: Node, h: HashMap)
      requires k < |recs| && scene.Sound() && Pasting(scene, hashmap, before, recs[..k], docs, ins, outs, d)
      modifies scene`nodes, scene`NodeSet, scene`SocketSet, scene.bindings, scene.ids
      ensures scene.Sound() && fresh(scene.SocketSet - old(scene.SocketSet))
      ensures Pasting(scene, h, before, recs[..k + 1], docs + [n.Doc()], ins + [n.inputs], outs + [n.outputs], d)
    {
      ghost var was := scene.nodes;
      n, h := PasteNode(recs[k], hashmap, d, recs[..k], |before|, ins, outs, docs);
      TakeAppend(was, n, |before|);
      PlacedNext(docs, recs[..k], d, n.Doc(), recs[k]);
      TakeNext(recs, k);
    }

    /** The node loop of `paste`, filling one table. */
    method PasteNodes(recs: seq<NodeRecord>, d: Point) returns (h: HashMap)
      requires scene.Sound()
      modifies scene`nodes, scene`NodeSet, scene`SocketSet, scene.bindings, scene.ids
      ensures scene.Sound() && fresh(scene.SocketSet - old(scene.SocketSet))
      ensures Indexes(h, recs, false, scene.SocketSet) && scene.Tabled(h, |old(scene.nodes)|, recs)
      ensures NodesPasted(scene, old(scene.nodes), recs, d)
    {
      ghost var docs, ins, outs;
      h, docs, ins, outs := PasteLoop(recs, d);
      PastingDone(scene, h, old(scene.nodes), recs, docs, ins, outs, d);
    }

    /** The loop of `PasteNodes`, with the records of the nodes it made
        and their socket lists. */
    method PasteLoop(recs: seq<NodeRecord>, d: Point)
      returns (h: HashMap, ghost docs: seq<NodeRecord>, ghost ins: seq<seq<Socket>>, ghost outs: seq<seq<Socket>>)
      requires scene.Sound()
      modifies scene`nodes, scene`NodeSet, scene`SocketSet, scene.bindings, scene.ids
      ensures scene.Sound() && fresh(scene.SocketSet - old(scene.SocketSet))
      ensures Pasting(scene, h, old(scene.nodes), recs, docs, ins, outs, d)
    {
      h := map[];
      ins, outs, docs := [], [], [];
      PastingStart(scene, d);
      assert recs[..0] == [];
      for k := 0 to |recs|
        invariant scene.Sound() && fresh(scene.SocketSet - old(scene.SocketSet))
        invariant Pasting(scene, h, old(scene.nodes), recs[..k], docs, ins, outs, d)
      {
        var n;
        n, h := PasteStep(recs, k, h, d, old(scene.nodes), docs, ins, outs);
        ins, outs, docs := ins + [n.inputs], outs + [n.outputs], docs + [n.Doc()];
      }
      assert recs[..|recs|] == recs;
    }

    /** `paste` on the parsed clipboard text (`None` where it does not
        parse), with the cursor's scene position and the selection `store`
        reads. Without a parse or a `nodes` key nothing happens. Otherwise
        the nodes are created around the cursor; then a missing `edges` key,
        an edge record that does not resolve against the table, or a scene
        `store` cannot serialize makes it raise; else one stamp is stored. */
    method Paste(text: Option<ClipText>, cursor: Point, sel: seq<Pick>) returns (r: PasteResult)
      requires Valid() && scene.Sound()
      modifies scene`nodes, scene`edges, scene`NodeSet, scene`SocketSet, scene`EdgeSet, scene.bindings, scene.ids, scene.SocketSet
      modifies scene`modified, scene`notified, history`stack, history`ptr
      ensures Valid() && scene.Sound()
      ensures r == Refused <==> text.None? || text.value.nodes.None?
      ensures r == Refused ==> scene.nodes == old(scene.nodes) && scene.edges == old(scene.edges) &&
                               scene.modified == old(scene.modified) && history.stack == old(history.stack) && history.ptr == old(history.ptr)
      ensures r != Refused ==> NodesPasted(scene, old(scene.nodes), text.value.nodes.value, Offset(BoxOf(text.value.nodes.value), cursor))
      ensures r != Refused ==> (r == Pasted <==> (text.value.edges.Some? && AllResolve(text.value.nodes.value, text.value.edges.value) &&
                                                 StampOf(scene, PASTE_DESCRIPTION, sel).Some?))
      ensures r == Pasted ==> scene.EdgesRead(text.value.nodes.value, text.value.edges.value, false, true) && scene.modified &&
                              (history.stack, history.ptr) == Pushed(old(history.stack), old(history.ptr), StampOf(scene, PASTE_DESCRIPTION, sel).value)
      ensures r == Pasted ==> scene.EdgesJoin(|old(scene.nodes)|, text.value.nodes.value, text.value.edges.value)
      ensures old(scene.edges) <= scene.edges
      ensures r == Raised && !(text.value.edges.Some? && AllResolve(text.value.nodes.value, text.value.edges.value)) ==>
                scene.modified == old(scene.modified) && history.stack == old(history.stack) && history.ptr == old(history.ptr)
      ensures r == Raised && text.value.edges.Some? && AllResolve(text.value.nodes.value, text.value.edges.value) ==>
                scene.modified && (history.stack, history.ptr) == Room(old(history.stack), old(history.ptr))
    {
      if text.None? || text.value.nodes.None? {
        return Refused;
      }
      r := PasteItems(text.value.nodes.value, text.value.edges, cursor, sel);
    }

    /** `paste` once the text has a `nodes` key: the bounding box, the
        offset, the nodes, then the edges and the stamp. */
    method PasteItems(recs: seq<NodeRecord>, edges: Option<seq<EdgeRecord>>, cursor: Point, sel: seq<Pick>) returns (r: PasteResult)
      requires Valid() && scene.Sound()
      modifies scene`nodes, scene`edges, scene`NodeSet, scene`SocketSet, scene`EdgeSet, scene.bindings, scene.ids, scene.SocketSet
      modifies scene`modified, scene`notified, history`stack, history`ptr
      ensures Valid() && scene.Sound() && r != Refused
      ensures NodesPasted(scene, old(scene.nodes), recs, Offset(BoxOf(recs), cursor))
      ensures r == Pasted <==> edges.Some? && AllResolve(recs, edges.value) && StampOf(scene, PASTE_DESCRIPTION, sel).Some?
      ensures r == Pasted ==> scene.EdgesRead(recs, edges.value, false, true) && scene.modified &&
                              (history.stack, history.ptr) == Pushed(old(history.stack), old(history.ptr), StampOf(scene, PASTE_DESCRIPTION, sel).value)
      ensures r == Pasted ==> scene.EdgesJoin(|old(scene.nodes)|, recs, edges.value)
      ensures old(scene.edges) <= scene.edges
      ensures r == Raised && !(edges.Some? && AllResolve(recs, edges.value)) ==>
                scene.modified == old(scene.modified) && history.stack == old(history.stack) && history.ptr == old(history.ptr)
      ensures r == Raised && edges.Some? && AllResolve(recs, edges.value) ==>
                scene.modified && (history.stack, history.ptr) == Room(old(history.stack), old(history.ptr))
    {
      var box := Bounds(recs);
      var d := Offset(box, cursor);
      var h := PasteNodes(recs, d);
      r := PasteEdges(edges, h, recs, sel, old(scene.nodes), d);
    }

    /** The edge loop of `paste` against the table the nodes filled, then
        the stamp; a missing `edges` key raises before any edge. The ghost
        parameters carry the pasted nodes across. */
    method PasteEdges(edges: Option<seq<EdgeRecord>>, h: HashMap, recs: seq<NodeRecord>, sel: seq<Pick>,
                      ghost before: seq<Node>, ghost d: Point) returns (r: PasteResult)
      requires Valid() && scene.Sound() && Indexes(h, recs, false, scene.SocketSet)
      requires NodesPasted(scene, before, recs, d) && scene.Tabled(h, |before|, recs)
      modifies scene`edges, scene`EdgeSet, scene.bindings, scene.ids, scene.SocketSet
      modifies scene`modified, scene`notified, history`stack, history`ptr
      ensures Valid() && scene.Sound() && r != Refused && NodesPasted(scene, before, recs, d)
      ensures r == Pasted <==> edges.Some? && AllResolve(recs, edges.value) && StampOf(scene, PASTE_DESCRIPTION, sel).Some?
      ensures r == Pasted ==> scene.EdgesRead(recs, edges.value, false, true) && scene.modified &&
                              (history.stack, history.ptr) == Pushed(old(history.stack), old(history.ptr), StampOf(scene, PASTE_DESCRIPTION, sel).value)
      ensures r == Pasted ==> scene.Tabled(h, |before|, recs) && Joined(h, scene.edges, edges.value)
      ensures r == Pasted ==> scene.EdgesJoin(|before|, recs, edges.value)
      ensures old(scene.edges) <= scene.edges
      ensures r == Raised && !(edges.Some? && AllResolve(recs, edges.value)) ==>
                scene.modified == old(scene.modified) && history.stack == old(history.stack) && history.ptr == old(history.ptr)
      ensures r == Raised && edges.Some? && AllResolve(recs, edges.value) ==>
                scene.modified && (history.stack, history.ptr) == Room(old(history.stack), old(history.ptr))
    {
      if edges.None? {
        return Raised;
      }
      r := PasteEdgeList(edges.value, h, recs, sel, before, d);
      if r == Pasted {
        scene.TabledJoin(h, |before|, recs, edges.value);
      }
    }

    /** `PasteEdges` once the text has an `edges` key: the edges are read,
        and only when each resolves is the stamp stored. */
    method PasteEdgeList(edges: seq<EdgeRecord>, h: HashMap, recs: seq<NodeRecord>, sel: seq<Pick>,
                         ghost before: seq<Node>, ghost d: Point) returns (r: PasteResult)
      requires Valid() && scene.Sound() && Indexes(h, recs, false, scene.SocketSet)
      requires NodesPasted(scene, before, recs, d) && scene.Tabled(h, |before|, recs)
      modifies scene`edges, scene`EdgeSet, scene.bindings, scene.ids, scene.SocketSet
      modifies scene`modified, scene`notified, history`stack, history`ptr
      ensures Valid() && scene.Sound() && r != Refused && NodesPasted(scene, before, recs, d)
      ensures r == Pasted <==> AllResolve(recs, edges) && StampOf(scene, PASTE_DESCRIPTION, sel).Some?
      ensures r == Pasted ==> scene.EdgesRead(recs, edges, false, true) && scene.modified &&
                              (history.stack, history.ptr) == Pushed(old(history.stack), old(history.ptr), StampOf(scene, PASTE_DESCRIPTION, sel).value)
      ensures r == Pasted ==> scene.Tabled(h, |before|, recs) && Joined(h, scene.edges, edges)
      ensures old(scene.edges) <= scene.edges
      ensures r == Raised && !AllResolve(recs, edges) ==>
                scene.modified == old(scene.modified) && history.stack == old(history.stack) && history.ptr == old(history.ptr)
      ensures r == Raised && AllResolve(recs, edges) ==>
                scene.modified && (history.stack, history.ptr) == Room(old(history.stack), old(history.ptr))
    {
      var ok := LoadPasted(edges, h, recs, before, d);
      if !ok {
        return Raised;
      }
      r := StorePasted(sel, h, recs, edges, before, d);
    }

    /** The edge half of `paste`: the edges are read against the pasted
        nodes, which stay as they were placed. */
    method LoadPasted(edges: seq<EdgeRecord>, h: HashMap, recs: seq<NodeRecord>, ghost before: seq<Node>, ghost d: Point)
      returns (ok: bool)
      requires scene.Sound() && Indexes(h, recs, false, scene.SocketSet)
      requires NodesPasted(scene, before, recs, d) && scene.Tabled(h, |before|, recs)
      modifies scene`edges, scene`EdgeSet, scene.bindings, scene.ids, scene.SocketSet
      ensures scene.Sound() && NodesPasted(scene, before, recs, d)
      ensures ok == AllResolve(recs, edges) && scene.EdgesRead(recs, edges, false, ok)
      ensures scene.Tabled(h, |before|, recs) && (ok ==> Joined(h, scene.edges, edges))
      ensures old(scene.edges) <= scene.edges
    {
      ok := scene.LoadEdges(edges, h, false, recs);
    }

    /** The end of `paste` once every edge is read: the stamp is stored,
        and the pasted nodes and edges stay as they were read. */
    method StorePasted(sel: seq<Pick>, ghost h: HashMap, ghost recs: seq<NodeRecord>, ghost edges: seq<EdgeRecord>,
                       ghost before: seq<Node>, ghost d: Point) returns (r: PasteResult)
      requires Valid() && scene.Sound()
      requires NodesPasted(scene, before, recs, d) && scene.EdgesRead(recs, edges, false, true)
      requires scene.Tabled(h, |before|, recs) && Joined(h, scene.edges, edges)
      modifies scene`modified, scene`notified, history`stack, history`ptr
      ensures Valid() && scene.Sound() && scene.modified && r != Refused
      ensures NodesPasted(scene, before, recs, d) && scene.EdgesRead(recs, edges, false, true)
      ensures scene.Tabled(h, |before|, recs) && Joined(h, scene.edges, edges) && scene.edges == old(scene.edges)
      ensures r == Pasted <==> StampOf(scene, PASTE_DESCRIPTION, sel).Some?
      ensures r == Pasted ==> (history.stack, history.ptr) == Pushed(old(history.stack), old(history.ptr), StampOf(scene, PASTE_DESCRIPTION, sel).value)
      ensures r == Raised ==> (history.stack, history.ptr) == Room(old(history.stack), old(history.ptr))
    {
      r := StoreJoined(sel, h, recs, edges, before);
    }

    /** `StoreStamp`, keeping the table and the edges it joined. */
    method StoreJoined(sel: seq<Pick>, ghost h: HashMap, ghost recs: seq<NodeRecord>, ghost edges: seq<EdgeRecord>,
                       ghost before: seq<Node>) returns (r: PasteResult)
      requires Valid()
      modifies scene`modified, scene`notified, history`stack, history`ptr
      ensures Valid() && scene.modified && r != Refused && (old(scene.Sound()) ==> scene.Sound())
      ensures scene.edges == old(scene.edges) && unchanged(scene.edges) && unchanged(scene`nodes) && unchanged(scene.nodes)
      ensures old(scene.Tabled(h, |before|, recs) && Joined(h, scene.edges, edges)) ==>
                scene.Tabled(h, |before|, recs) && Joined(h, scene.edges, edges)
      ensures r == Pasted <==> StampOf(scene, PASTE_DESCRIPTION, sel).Some?
      ensures r == Pasted ==> (history.stack, history.ptr) == Pushed(old(history.stack), old(history.ptr), StampOf(scene, PASTE_DESCRIPTION, sel).value)
      ensures r == Raised ==> (history.stack, history.ptr) == Room(old(history.stack), old(history.ptr))
    {
      r := StoreStamp(sel);
    }

    /** The history entry `paste` stores: a stamp of the scene when it can
        be taken, and otherwise only the room made for it. */
    method StoreStamp(sel: seq<Pick>) returns (r: PasteResult)
      requires Valid()
      modifies scene`modified, scene`notified, history`stack, history`ptr
      ensures Valid() && scene.modified && r != Refused && (old(scene.Sound()) ==> scene.Sound())
      ensures scene.edges == old(scene.edges) && unchanged(scene.edges)
      ensures r == Pasted <==> StampOf(scene, PASTE_DESCRIPTION, sel).Some?
      ensures r == Pasted ==> (history.stack, history.ptr) == Pushed(old(history.stack), old(history.ptr), StampOf(scene, PASTE_DESCRIPTION, sel).value)
      ensures r == Raised ==> (history.stack, history.ptr) == Room(old(history.stack), old(history.ptr))
    {
      var stored := history.Store(PASTE_DESCRIPTION, true, sel);
      r := if stored then Pasted else Raised;
    }
  }
}
