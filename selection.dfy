/** The scene's selection as the history and the clipboard read it: the
    graphics scene reports its selected items, and of those only the
    widgets of nodes and of edges matter. */
module Selection {
  import opened Lists
  import opened MultiEdgeGraph

  /** One selected item: a node's widget, an edge's widget, or anything
      else (which both readers skip). */
  datatype Pick = PickedNode(node: Node) | PickedEdge(edge: Edge) | PickedOther

  /** The picked nodes, in selection order. */
  function PickedNodes(sel: seq<Pick>): (r: seq<Node>)
  {
    if sel == [] then []
    else
      var init, last := sel[..|sel| - 1], sel[|sel| - 1];
      assert sel == init + [last];
      PickedNodes(init) + (if last.PickedNode? then [last.node] else [])
  }

  /** The picked edges, in selection order. */
  function PickedEdges(sel: seq<Pick>): (r: seq<Edge>)
  {
    if sel == [] then []
    else
      var init, last := sel[..|sel| - 1], sel[|sel| - 1];
      assert sel == init + [last];
      PickedEdges(init) + (if last.PickedEdge? then [last.edge] else [])
  }

  lemma PickedNodesAppend(sel: seq<Pick>, p: Pick)
    ensures PickedNodes(sel + [p]) == PickedNodes(sel) + (if p.PickedNode? then [p.node] else [])
  {
    assert (sel + [p])[..|sel|] == sel;
  }

  lemma PickedEdgesAppend(sel: seq<Pick>, p: Pick)
    ensures PickedEdges(sel + [p]) == PickedEdges(sel) + (if p.PickedEdge? then [p.edge] else [])
  {
    assert (sel + [p])[..|sel|] == sel;
  }

  lemma PickedStep(sel: seq<Pick>, k: nat)
    requires k < |sel|
    ensures PickedNodes(sel[..k + 1]) == PickedNodes(sel[..k]) + (if sel[k].PickedNode? then [sel[k].node] else [])
    ensures PickedEdges(sel[..k + 1]) == PickedEdges(sel[..k]) + (if sel[k].PickedEdge? then [sel[k].edge] else [])
  {
    assert sel[..k + 1] == sel[..k] + [sel[k]];
    PickedNodesAppend(sel[..k], sel[k]);
    PickedEdgesAppend(sel[..k], sel[k]);
  }

  /** Every picked node and edge comes from the selection. */
  lemma {:induction false} PickedFrom(sel: seq<Pick>)
    ensures forall n :: n in PickedNodes(sel) ==> PickedNode(n) in sel
    ensures forall e :: e in PickedEdges(sel) ==> PickedEdge(e) in sel
  {
    if sel != [] {
      var init := sel[..|sel| - 1];
      PickedFrom(init);
      assert forall p :: p in init ==> p in sel;
    }
  }

  /** The edges deleting `p` takes out of the scene: a picked edge itself,
      or every edge listed at a picked node's sockets. */
  ghost function Detached(p: Pick): set<Edge>
    reads if p.PickedNode? then {p.node} else {}
    reads if p.PickedNode? then p.node.inputs else [], if p.PickedNode? then p.node.outputs else []
  {
    match p
    case PickedNode(n) => n.Attached()
    case PickedEdge(e) => {e}
    case PickedOther => {}
  }

  /** `Detached(p)`, read off the socket lists `start` records rather than
      off the sockets themselves. */
  ghost function DetachedIn(start: map<Socket, seq<Edge>>, p: Pick): set<Edge>
    reads if p.PickedNode? then {p.node} else {}
  {
    match p
    case PickedNode(n) => Union(ListsIn(start, n.inputs + n.outputs))
    case PickedEdge(e) => {e}
    case PickedOther => {}
  }

  /** The picked nodes and their sockets. */
  ghost function PickedParts(sel: seq<Pick>): set<object>
    reads set k | 0 <= k < |sel| && sel[k].PickedNode? :: sel[k].node
  {
    if sel == [] then {}
    else
      var p := sel[|sel| - 1];
      PickedParts(sel[..|sel| - 1]) +
      if p.PickedNode? then {p.node as object} + Elements(p.node.inputs) + Elements(p.node.outputs) else {}
  }

  /** The edges deleting every pick of `sel` takes out. */
  ghost function DetachedAll(sel: seq<Pick>): set<Edge>
    reads set k | 0 <= k < |sel| && sel[k].PickedNode? :: sel[k].node
    reads PickedParts(sel)
  {
    if sel == [] then {} else DetachedAll(sel[..|sel| - 1]) + Detached(sel[|sel| - 1])
  }


  /** `DetachedAll(sel)`, read off the socket lists `start` records. */
  ghost function DetachedAllIn(start: map<Socket, seq<Edge>>, sel: seq<Pick>): set<Edge>
    reads set k | 0 <= k < |sel| && sel[k].PickedNode? :: sel[k].node
  {
    if sel == [] then {} else DetachedAllIn(start, sel[..|sel| - 1]) + DetachedIn(start, sel[|sel| - 1])
  }

  /** While every socket of a picked node still lists what `start`
      records, the two readings agree. */
  lemma {:induction false} DetachedAllAt(start: map<Socket, seq<Edge>>, sel: seq<Pick>)
    requires forall k, s :: 0 <= k < |sel| && sel[k].PickedNode? && s in sel[k].node.inputs + sel[k].node.outputs ==>
      s in start && s.edges == Without(start[s], {})
    ensures DetachedAll(sel) == DetachedAllIn(start, sel)
  {
    if sel != [] {
      var last := sel[|sel| - 1];
      DetachedAllAt(start, sel[..|sel| - 1]);
      if last.PickedNode? {
        AttachedPruned(last.node, start, {});
      }
    }
  }

  /** Deleting a selection takes out the picked edges and every edge a
      picked node's sockets list, and nothing else. */
  lemma {:induction false} DetachedAllMembers(sel: seq<Pick>)
    ensures forall e :: e in DetachedAll(sel) <==>
      e in PickedEdges(sel) || exists n :: n in PickedNodes(sel) && e in n.Attached()
  {
    if sel != [] {
      var init, last := sel[..|sel| - 1], sel[|sel| - 1];
      DetachedAllMembers(init);
      PickedNodesAppend(init, last);
      PickedEdgesAppend(init, last);
      assert init + [last] == sel;
    }
  }

  /** The edges a selection takes away depend on the picked nodes and their
      sockets alone. */
  twostate lemma DetachedAllFramed(sel: seq<Pick>)
    requires unchanged(set k | 0 <= k < |sel| && sel[k].PickedNode? :: sel[k].node)
    requires forall k :: 0 <= k < |sel| && sel[k].PickedNode? ==> unchanged(sel[k].node.inputs) && unchanged(sel[k].node.outputs)
    ensures DetachedAll(sel) == old(DetachedAll(sel))
  {
    if sel != [] {
      DetachedAllFramed(sel[..|sel| - 1]);
    }
  }

  /** The ids of a list of edges, in order. */
  function EdgeIdsIn(es: seq<Edge>): (r: seq<int>)
    reads es
    ensures |r| == |es|
  {
    if es == [] then [] else EdgeIdsIn(es[..|es| - 1]) + [es[|es| - 1].id]
  }

  /** The ids of a list of nodes, in order. */
  function NodeIdsIn(ns: seq<Node>): (r: seq<int>)
    reads ns
    ensures |r| == |ns|
  {
    if ns == [] then [] else NodeIdsIn(ns[..|ns| - 1]) + [ns[|ns| - 1].id]
  }

  lemma EdgeIdsInAppend(es: seq<Edge>, e: Edge)
    ensures EdgeIdsIn(es + [e]) == EdgeIdsIn(es) + [e.id]
  {
    assert (es + [e])[..|es|] == es;
  }

  lemma NodeIdsInAppend(ns: seq<Node>, n: Node)
    ensures NodeIdsIn(ns + [n]) == NodeIdsIn(ns) + [n.id]
  {
    assert (ns + [n])[..|ns|] == ns;
  }

  lemma SelectedIdsStep(sel: seq<Pick>, k: nat)
    requires k < |sel|
    ensures NodeIdsIn(PickedNodes(sel[..k + 1])) == NodeIdsIn(PickedNodes(sel[..k])) + (if sel[k].PickedNode? then [sel[k].node.id] else [])
    ensures EdgeIdsIn(PickedEdges(sel[..k + 1])) == EdgeIdsIn(PickedEdges(sel[..k])) + (if sel[k].PickedEdge? then [sel[k].edge.id] else [])
  {
    var init, p := sel[..k], sel[k];
    assert sel[..k + 1] == init + [p];
    PickedNodesAppend(init, p);
    PickedEdgesAppend(init, p);
    if p.PickedNode? {
      NodeIdsInAppend(PickedNodes(init), p.node);
    } else {
      assert PickedNodes(init + [p]) == PickedNodes(init);
    }
    if p.PickedEdge? {
      EdgeIdsInAppend(PickedEdges(init), p.edge);
    } else {
      assert PickedEdges(init + [p]) == PickedEdges(init);
    }
  }

  /** The ids of the selected nodes and of the selected edges, each in
      selection order, collected in one pass. */
  method SelectedIds(sel: seq<Pick>) returns (nodes: seq<int>, edges: seq<int>)
    ensures nodes == NodeIdsIn(PickedNodes(sel)) && edges == EdgeIdsIn(PickedEdges(sel))
  {
    nodes, edges := [], [];
    for k := 0 to |sel|
      invariant nodes == NodeIdsIn(PickedNodes(sel[..k])) && edges == EdgeIdsIn(PickedEdges(sel[..k]))
    {
      SelectedIdsStep(sel, k);
      match sel[k]
      case PickedNode(n) => nodes := nodes + [n.id];
      case PickedEdge(e) => edges := edges + [e.id];
      case PickedOther =>
    }
    assert sel[..|sel|] == sel;
  }
}
