/** The single-edge graph model of node_editor/core/components.py, together
    with node_editor/core/{scene,node,socket,edge}.py, which hold the same
    classes without serialization. A scene owns lists of nodes and edges,
    and every socket holds at most one edge in its `edge` field.

    Assigning an end of an edge points the new socket at the edge but leaves
    the socket it replaces pointing at the edge too, and `unbindAll` clears
    the field of both current ends whatever edge they point at. So "every
    bound socket is an end of its edge" (`Anchored`) is not kept by every
    operation; the contracts below say which keep it and when one breaks it.

    As in the multi-edge model the scene carries ghost arenas `NodeSet`,
    `SocketSet` and `EdgeSet` of everything ever created for it; `Valid`
    states that the model's references stay inside them.

    The table functions and lemmas (`Enter`, `EnterEntries`, `IdsSorted`,
    `Entered`, `Built`, `EdgeDocs`, ...) repeat those of the multi-edge
    model over this module's own `Node`, `Socket` and `Edge` classes and the
    legacy socket records, which carry no `multi_edges` flag; the two
    generations share no class, so the definitions cannot be shared. */
module SingleEdgeGraph {

  import opened Wrappers
  import opened Identity
  import opened Kinds
  import opened Lists
  import opened Layout
  import opened Records

  /** A value of the id → object table that `deserialize` fills. */
  datatype Entry = NodeEntry(node: Node) | SocketEntry(socket: Socket)

  type HashMap = map<int, Entry>

  /** The id names a socket in the table. */
  predicate NamesSocket(hashmap: HashMap, k: int)
  {
    k in hashmap && hashmap[k].SocketEntry?
  }

  /** What the table holds under a key, up to the object itself. */
  function KindOf(hashmap: HashMap, k: int): (r: EntryKind)
    ensures r == SocketKind <==> NamesSocket(hashmap, k)
  {
    if k !in hashmap then NoEntry else if hashmap[k].NodeEntry? then NodeKind else SocketKind
  }

  /** Every socket the table names is in `sockets`. */
  ghost predicate SocketsIn(hashmap: HashMap, sockets: set<Socket>)
  {
    forall k :: k in hashmap && hashmap[k].SocketEntry? ==> hashmap[k].socket in sockets
  }

  /** No socket of `sockets` holds an edge. */
  ghost predicate Unbound(sockets: set<Socket>)
    reads sockets
  {
    forall s :: s in sockets ==> s.edge == null
  }

  /** Every socket in the table carries the id it is entered under. */
  predicate Keyed(hashmap: HashMap)
  {
    forall k :: k in hashmap && hashmap[k].SocketEntry? ==> hashmap[k].socket.id == k
  }

  /** The ids of a list of socket records. */
  function Ids(recs: seq<LegacySocketRecord>): set<int>
  {
    set r | r in recs :: r.id
  }

  /** The table after `hashmap[recs[k].id] = ss[k]` for each k in order. */
  function Enter(hashmap: HashMap, recs: seq<LegacySocketRecord>, ss: seq<Socket>): HashMap
    requires |recs| == |ss|
  {
    if recs == [] then hashmap
    else Enter(hashmap, recs[..|recs| - 1], ss[..|ss| - 1])[recs[|recs| - 1].id := SocketEntry(ss[|ss| - 1])]
  }

  /** Entering records adds exactly their ids, each then naming a socket,
      and every other key keeps its entry. */
  lemma {:induction false} EnterEntries(hashmap: HashMap, recs: seq<LegacySocketRecord>, ss: seq<Socket>)
    requires |recs| == |ss|
    ensures Enter(hashmap, recs, ss).Keys == hashmap.Keys + Ids(recs)
    ensures forall k :: k in Ids(recs) ==> NamesSocket(Enter(hashmap, recs, ss), k)
    ensures forall k :: k in hashmap && k !in Ids(recs) ==> Enter(hashmap, recs, ss)[k] == hashmap[k]
  {
    if recs != [] {
      var n := |recs| - 1;
      EnterEntries(hashmap, recs[..n], ss[..n]);
      assert recs == recs[..n] + [recs[n]];
      assert Ids(recs) == Ids(recs[..n]) + {recs[n].id};
    }
  }

  /** Entering sockets of a set keeps every named socket in that set. */
  lemma {:induction false} EnterSocketsIn(hashmap: HashMap, recs: seq<LegacySocketRecord>, ss: seq<Socket>, sockets: set<Socket>)
    requires |recs| == |ss| && SocketsIn(hashmap, sockets)
    requires forall k :: 0 <= k < |ss| ==> ss[k] in sockets
    ensures SocketsIn(Enter(hashmap, recs, ss), sockets)
  {
    if recs != [] {
      var n := |recs| - 1;
      EnterSocketsIn(hashmap, recs[..n], ss[..n], sockets);
    }
  }

  /** The table names under an id the socket made from the last record
      carrying it. */
  lemma {:induction false} EnterLast(hashmap: HashMap, recs: seq<LegacySocketRecord>, ss: seq<Socket>, j: nat)
    requires |recs| == |ss| && j < |recs|
    requires forall i :: j < i < |recs| ==> recs[i].id != recs[j].id
    ensures recs[j].id in Enter(hashmap, recs, ss) && Enter(hashmap, recs, ss)[recs[j].id] == SocketEntry(ss[j])
  {
    var n := |recs| - 1;
    if j < n {
      EnterLast(hashmap, recs[..n], ss[..n], j);
    }
  }

  /** The records of a list of sockets, in order. */
  function SocketDocs(ss: seq<Socket>): (r: seq<LegacySocketRecord>)
    ensures |r| == |ss|
  {
    if ss == [] then [] else SocketDocs(ss[..|ss| - 1]) + [ss[|ss| - 1].Doc()]
  }

  lemma SocketDocsAppend(ss: seq<Socket>, s: Socket)
    ensures SocketDocs(ss + [s]) == SocketDocs(ss) + [s.Doc()]
  {
    assert (ss + [s])[..|ss|] == ss;
  }

  /** Entering sockets under the ids their records carry keeps a table keyed. */
  lemma {:induction false} EnterKeyed(hashmap: HashMap, recs: seq<LegacySocketRecord>, ss: seq<Socket>)
    requires |recs| == |ss| && Keyed(hashmap) && SocketDocs(ss) == recs
    ensures Keyed(Enter(hashmap, recs, ss))
  {
    if recs != [] {
      var n := |recs| - 1;
      assert SocketDocs(ss[..n]) == recs[..n];
      EnterKeyed(hashmap, recs[..n], ss[..n]);
    }
  }

  /** Sorting socket records keeps their ids. */
  lemma IdsSorted(recs: seq<LegacySocketRecord>)
    ensures Ids(SortBy(recs, LegacySocketKey)) == Ids(recs)
  {
    var sorted := SortBy(recs, LegacySocketKey);
    SortByPermutes(recs, LegacySocketKey);
    forall r ensures r in sorted <==> r in recs {
      assert r in sorted <==> r in multiset(sorted);
      assert r in recs <==> r in multiset(recs);
    }
  }

  /** What the table holds under `k` once the nodes of `recs` have been
      deserialized into an empty table, in order: each node is entered under
      its id, then each of its sockets under theirs, and a later entry under
      the same id replaces an earlier one. */
  function KindAfter(recs: seq<LegacyNodeRecord>, k: int): EntryKind
  {
    if recs == [] then NoEntry
    else
      var last := recs[|recs| - 1];
      if k in Ids(last.inputs) || k in Ids(last.outputs) then SocketKind
      else if k == last.id then NodeKind
      else KindAfter(recs[..|recs| - 1], k)
  }

  /** Both ends of the edge record name a socket once the node records are
      deserialized. */
  predicate Resolves(recs: seq<LegacyNodeRecord>, e: EdgeRecord)
  {
    KindAfter(recs, e.start) == SocketKind && KindAfter(recs, e.end) == SocketKind
  }

  /** Every edge record resolves against the node records. */
  predicate AllResolve(recs: seq<LegacyNodeRecord>, edges: seq<EdgeRecord>)
  {
    forall j :: 0 <= j < |edges| ==> Resolves(recs, edges[j])
  }

  /** One more record that resolves keeps `AllResolve`. */
  lemma AllResolveAppend(recs: seq<LegacyNodeRecord>, edges: seq<EdgeRecord>, e: EdgeRecord)
    requires AllResolve(recs, edges) && Resolves(recs, e)
    ensures AllResolve(recs, edges + [e])
  {
    assert forall j :: 0 <= j < |edges| ==> (edges + [e])[j] == edges[j];
  }

  lemma AllResolveNext(recs: seq<LegacyNodeRecord>, edges: seq<EdgeRecord>, k: nat)
    requires k < |edges|
    ensures AllResolve(recs, edges[..k + 1]) == (AllResolve(recs, edges[..k]) && Resolves(recs, edges[k]))
  {
    assert edges[..k + 1][k] == edges[k];
  }

  /** The table after a node's `deserialize`: the node under its record's
      id, then its inputs and its outputs under the ids of the sorted socket
      records they were made from. */
  function Entered(hashmap: HashMap, n: Node, rec: LegacyNodeRecord, inputs: seq<Socket>, outputs: seq<Socket>): HashMap
    requires |inputs| == |rec.inputs| && |outputs| == |rec.outputs|
  {
    Enter(Enter(hashmap[rec.id := NodeEntry(n)], SortBy(rec.inputs, LegacySocketKey), inputs),
          SortBy(rec.outputs, LegacySocketKey), outputs)
  }

  /** A node's `deserialize` makes its sockets' ids name sockets and its own
      id name the node unless a socket took it; every other key keeps its
      entry. */
  lemma EnteredKinds(hashmap: HashMap, n: Node, rec: LegacyNodeRecord, inputs: seq<Socket>, outputs: seq<Socket>)
    requires |inputs| == |rec.inputs| && |outputs| == |rec.outputs|
    ensures forall k :: KindOf(Entered(hashmap, n, rec, inputs, outputs), k) ==
              if k in Ids(rec.inputs) || k in Ids(rec.outputs) then SocketKind
              else if k == rec.id then NodeKind
              else KindOf(hashmap, k)
  {
    var h0 := hashmap[rec.id := NodeEntry(n)];
    var ins, outs := SortBy(rec.inputs, LegacySocketKey), SortBy(rec.outputs, LegacySocketKey);
    EnterEntries(h0, ins, inputs);
    EnterEntries(Enter(h0, ins, inputs), outs, outputs);
    IdsSorted(rec.inputs);
    IdsSorted(rec.outputs);
  }

  /** The sockets a node's `deserialize` enters are the node's own. */
  lemma EnteredSocketsIn(hashmap: HashMap, n: Node, rec: LegacyNodeRecord, inputs: seq<Socket>, outputs: seq<Socket>, sockets: set<Socket>)
    requires |inputs| == |rec.inputs| && |outputs| == |rec.outputs|
    requires SocketsIn(hashmap, sockets) && Elements(inputs) + Elements(outputs) <= sockets
    ensures SocketsIn(Entered(hashmap, n, rec, inputs, outputs), sockets)
  {
    var h0 := hashmap[rec.id := NodeEntry(n)];
    assert forall j :: 0 <= j < |inputs| ==> inputs[j] in Elements(inputs);
    assert forall j :: 0 <= j < |outputs| ==> outputs[j] in Elements(outputs);
    EnterSocketsIn(h0, SortBy(rec.inputs, LegacySocketKey), inputs, sockets);
    EnterSocketsIn(Enter(h0, SortBy(rec.inputs, LegacySocketKey), inputs), SortBy(rec.outputs, LegacySocketKey), outputs, sockets);
  }

  /** Sockets that took over their records' ids keep the table keyed. */
  lemma EnteredKeyed(hashmap: HashMap, n: Node, rec: LegacyNodeRecord, inputs: seq<Socket>, outputs: seq<Socket>)
    requires Keyed(hashmap)
    requires SocketDocs(inputs) == SortBy(rec.inputs, LegacySocketKey)
    requires SocketDocs(outputs) == SortBy(rec.outputs, LegacySocketKey)
    ensures |inputs| == |rec.inputs| && |outputs| == |rec.outputs|
    ensures Keyed(Entered(hashmap, n, rec, inputs, outputs))
  {
    var h0 := hashmap[rec.id := NodeEntry(n)];
    EnterKeyed(h0, SortBy(rec.inputs, LegacySocketKey), inputs);
    EnterKeyed(Enter(h0, SortBy(rec.inputs, LegacySocketKey), inputs), SortBy(rec.outputs, LegacySocketKey), outputs);
  }

  /** `hashmap` is the table the node loop of `deserialize` has built from
      `recs`: it names sockets of `sockets` only, each under its own id, and
      each key holds what the last record using it entered. */
  ghost predicate Indexes(hashmap: HashMap, recs: seq<LegacyNodeRecord>, sockets: set<Socket>)
  {
    var indexes := SocketsIn(hashmap, sockets) && Keyed(hashmap) &&
                   forall k :: KindOf(hashmap, k) == KindAfter(recs, k);
    indexes
  }

  /** One more node's `deserialize` extends the table by its record. */
  lemma EnteredIndexes(hashmap: HashMap, n: Node, rec: LegacyNodeRecord, inputs: seq<Socket>, outputs: seq<Socket>,
                       prev: seq<LegacyNodeRecord>, sockets: set<Socket>)
    requires Indexes(hashmap, prev, sockets) && Elements(inputs) + Elements(outputs) <= sockets
    requires SocketDocs(inputs) == SortBy(rec.inputs, LegacySocketKey)
    requires SocketDocs(outputs) == SortBy(rec.outputs, LegacySocketKey)
    ensures |inputs| == |rec.inputs| && |outputs| == |rec.outputs|
    ensures Indexes(Entered(hashmap, n, rec, inputs, outputs), prev + [rec], sockets)
  {
    var h := Entered(hashmap, n, rec, inputs, outputs);
    EnteredKinds(hashmap, n, rec, inputs, outputs);
    EnteredSocketsIn(hashmap, n, rec, inputs, outputs, sockets);
    EnteredKeyed(hashmap, n, rec, inputs, outputs);
    forall k ensures KindOf(h, k) == KindAfter(prev + [rec], k) {
      assert (prev + [rec])[..|prev|] == prev;
    }
  }

  /** `doc` is what a node deserialized from `rec` serializes to: the
      record itself with its socket records sorted by their key, except for
      the content record, which keeps its own id. */
  predicate NodeLoaded(doc: LegacyNodeRecord, rec: LegacyNodeRecord)
  {
    doc == rec.(contentId := doc.contentId, inputs := SortBy(rec.inputs, LegacySocketKey),
                outputs := SortBy(rec.outputs, LegacySocketKey))
  }

  /** Each of `docs` is what the node deserialized from the record at the
      same position serializes to. */
  predicate NodesLoaded(docs: seq<LegacyNodeRecord>, recs: seq<LegacyNodeRecord>)
  {
    var loaded := |docs| == |recs| && forall i :: 0 <= i < |recs| ==> NodeLoaded(docs[i], recs[i]);
    loaded
  }

  lemma NodesLoadedAppend(docs: seq<LegacyNodeRecord>, recs: seq<LegacyNodeRecord>, d: LegacyNodeRecord, r: LegacyNodeRecord)
    requires NodesLoaded(docs, recs) && NodeLoaded(d, r)
    ensures NodesLoaded(docs + [d], recs + [r])
  {
  }

  /** The records of a list of nodes, in order. */
  function NodeDocs(ns: seq<Node>): (r: seq<LegacyNodeRecord>)
    reads ns
    ensures |r| == |ns|
  {
    if ns == [] then [] else NodeDocs(ns[..|ns| - 1]) + [ns[|ns| - 1].Doc()]
  }

  lemma NodeDocsAppend(ns: seq<Node>, n: Node)
    ensures NodeDocs(ns + [n]) == NodeDocs(ns) + [n.Doc()]
  {
    assert (ns + [n])[..|ns|] == ns;
  }

  /** The records of a list of edges, in order, or `None` as soon as one
      edge has a missing end. */
  function EdgeDocs(es: seq<Edge>): (r: Option<seq<EdgeRecord>>)
    reads es
    ensures r.Some? <==> forall j :: 0 <= j < |es| ==> es[j].start != null && es[j].end != null
    ensures r.Some? ==> |r.value| == |es| && forall j :: 0 <= j < |es| ==> es[j].Doc() == Some(r.value[j])
  {
    if es == [] then Some([])
    else
      var n := |es| - 1;
      match EdgeDocs(es[..n])
      case None => None
      case Some(init) =>
        if es[n].start != null && es[n].end != null then Some(init + [es[n].Doc().value]) else None
  }

  lemma EdgeDocsAppend(es: seq<Edge>, recs: seq<EdgeRecord>, e: Edge, r: EdgeRecord)
    requires EdgeDocs(es) == Some(recs) && e.Doc() == Some(r)
    ensures EdgeDocs(es + [e]) == Some(recs + [r])
  {
    assert (es + [e])[..|es|] == es;
  }

  /** One input list and one output list per node record, each as long as
      the record's own list of socket records. */
  predicate Shaped(recs: seq<LegacyNodeRecord>, ins: seq<seq<Socket>>, outs: seq<seq<Socket>>)
  {
    |ins| == |recs| && |outs| == |recs| &&
    forall i :: 0 <= i < |recs| ==> |ins[i]| == |recs[i].inputs| && |outs[i]| == |recs[i].outputs|
  }

  /** The table the node loop of `deserialize` builds on `hashmap` when the
      node deserialized from `recs[i]` is `ns[i]` with the input sockets
      `ins[i]` and the output sockets `outs[i]`. */
  function Built(hashmap: HashMap, ns: seq<Node>, recs: seq<LegacyNodeRecord>, ins: seq<seq<Socket>>, outs: seq<seq<Socket>>): HashMap
    requires |ns| == |recs| && Shaped(recs, ins, outs)
  {
    if recs == [] then hashmap
    else
      var n := |recs| - 1;
      Entered(Built(hashmap, ns[..n], recs[..n], ins[..n], outs[..n]), ns[n], recs[n], ins[n], outs[n])
  }

  lemma BuiltNext(hashmap: HashMap, ns: seq<Node>, recs: seq<LegacyNodeRecord>, ins: seq<seq<Socket>>, outs: seq<seq<Socket>>,
                  n: Node, rec: LegacyNodeRecord, inputs: seq<Socket>, outputs: seq<Socket>)
    requires |ns| == |recs| && Shaped(recs, ins, outs) && |inputs| == |rec.inputs| && |outputs| == |rec.outputs|
    ensures Shaped(recs + [rec], ins + [inputs], outs + [outputs])
    ensures Built(hashmap, ns + [n], recs + [rec], ins + [inputs], outs + [outputs]) ==
            Entered(Built(hashmap, ns, recs, ins, outs), n, rec, inputs, outputs)
  {
    assert (ns + [n])[..|ns|] == ns && (recs + [rec])[..|recs|] == recs;
    assert (ins + [inputs])[..|ins|] == ins && (outs + [outputs])[..|outs|] == outs;
  }

  /** Dropping the last node keeps the lists shaped. */
  lemma ShapedPrefix(ns: seq<Node>, recs: seq<LegacyNodeRecord>, ins: seq<seq<Socket>>, outs: seq<seq<Socket>>)
    requires |ns| == |recs| && Shaped(recs, ins, outs) && recs != []
    ensures var n := |recs| - 1; |ns[..n]| == |recs[..n]| && Shaped(recs[..n], ins[..n], outs[..n])
  {
  }

  /** What the last node's `deserialize` enters stays in the table. */
  lemma BuiltLast(hashmap: HashMap, ns: seq<Node>, recs: seq<LegacyNodeRecord>, ins: seq<seq<Socket>>, outs: seq<seq<Socket>>, k: int, entry: Entry)
    requires |ns| == |recs| && Shaped(recs, ins, outs) && recs != []
    requires var n := |recs| - 1;
             var h := Entered(Built(hashmap, ns[..n], recs[..n], ins[..n], outs[..n]), ns[n], recs[n], ins[n], outs[n]);
             k in h && h[k] == entry
    ensures k in Built(hashmap, ns, recs, ins, outs) && Built(hashmap, ns, recs, ins, outs)[k] == entry
  {
  }

  /** No record of `recs` carries the id `k`, for its node or a socket. */
  predicate Unused(recs: seq<LegacyNodeRecord>, k: int)
  {
    forall i :: 0 <= i < |recs| ==> recs[i].id != k && k !in Ids(recs[i].inputs) && k !in Ids(recs[i].outputs)
  }

  /** Input `j` (sorted) of node `i` is the last socket record of `recs`
      carrying its id: no later input of that node, no output of it and no
      later node carries the id. */
  predicate LastInput(recs: seq<LegacyNodeRecord>, i: nat, j: nat)
  {
    i < |recs| && j < |recs[i].inputs| &&
    var sorted := SortBy(recs[i].inputs, LegacySocketKey);
    var last := (forall j' :: j < j' < |sorted| ==> sorted[j'].id != sorted[j].id) &&
                sorted[j].id !in Ids(recs[i].outputs) && Unused(recs[i + 1..], sorted[j].id);
    last
  }

  /** Output `j` (sorted) of node `i` is the last socket record of `recs`
      carrying its id. */
  predicate LastOutput(recs: seq<LegacyNodeRecord>, i: nat, j: nat)
  {
    i < |recs| && j < |recs[i].outputs| &&
    var sorted := SortBy(recs[i].outputs, LegacySocketKey);
    var last := (forall j' :: j < j' < |sorted| ==> sorted[j'].id != sorted[j].id) && Unused(recs[i + 1..], sorted[j].id);
    last
  }

  /** The records after `i` but before the last one do not carry `k`
      either, nor does the last one. */
  lemma UnusedPrefix(recs: seq<LegacyNodeRecord>, i: nat, k: int)
    requires i < |recs| - 1 && Unused(recs[i + 1..], k)
    ensures Unused(recs[..|recs| - 1][i + 1..], k)
    ensures var last := recs[|recs| - 1]; last.id != k && k !in Ids(last.inputs) && k !in Ids(last.outputs)
  {
    var n := |recs| - 1;
    assert recs[..n][i + 1..] == recs[i + 1..n];
    assert recs[n] == recs[i + 1..][n - i - 1];
  }

  /** Input `j` of node `i` stays last once the last node is dropped, which
      does not carry its id. */
  lemma LastInputPrefix(recs: seq<LegacyNodeRecord>, i: nat, j: nat)
    requires LastInput(recs, i, j) && i < |recs| - 1
    ensures LastInput(recs[..|recs| - 1], i, j)
    ensures var k := SortBy(recs[i].inputs, LegacySocketKey)[j].id;
            var last := recs[|recs| - 1]; last.id != k && k !in Ids(last.inputs) && k !in Ids(last.outputs)
  {
    assert recs[..|recs| - 1][i] == recs[i];
    UnusedPrefix(recs, i, SortBy(recs[i].inputs, LegacySocketKey)[j].id);
  }

  /** Output `j` of node `i` stays last once the last node is dropped, which
      does not carry its id. */
  lemma LastOutputPrefix(recs: seq<LegacyNodeRecord>, i: nat, j: nat)
    requires LastOutput(recs, i, j) && i < |recs| - 1
    ensures LastOutput(recs[..|recs| - 1], i, j)
    ensures var k := SortBy(recs[i].outputs, LegacySocketKey)[j].id;
            var last := recs[|recs| - 1]; last.id != k && k !in Ids(last.inputs) && k !in Ids(last.outputs)
  {
    assert recs[..|recs| - 1][i] == recs[i];
    UnusedPrefix(recs, i, SortBy(recs[i].outputs, LegacySocketKey)[j].id);
  }

  /** A node's `deserialize` leaves alone every key its record does not carry. */
  lemma EnteredKeeps(hashmap: HashMap, n: Node, rec: LegacyNodeRecord, inputs: seq<Socket>, outputs: seq<Socket>, k: int)
    requires |inputs| == |rec.inputs| && |outputs| == |rec.outputs|
    requires k in hashmap && k != rec.id && k !in Ids(rec.inputs) && k !in Ids(rec.outputs)
    ensures k in Entered(hashmap, n, rec, inputs, outputs) && Entered(hashmap, n, rec, inputs, outputs)[k] == hashmap[k]
  {
    var h0 := hashmap[rec.id := NodeEntry(n)];
    IdsSorted(rec.inputs);
    IdsSorted(rec.outputs);
    EnterEntries(h0, SortBy(rec.inputs, LegacySocketKey), inputs);
    EnterEntries(Enter(h0, SortBy(rec.inputs, LegacySocketKey), inputs), SortBy(rec.outputs, LegacySocketKey), outputs);
  }

  /** The last node's `deserialize` leaves alone every key its record does
      not carry. */
  lemma BuiltKeeps(hashmap: HashMap, ns: seq<Node>, recs: seq<LegacyNodeRecord>, ins: seq<seq<Socket>>, outs: seq<seq<Socket>>, k: int)
    requires |ns| == |recs| && Shaped(recs, ins, outs) && recs != []
    requires var last := recs[|recs| - 1]; last.id != k && k !in Ids(last.inputs) && k !in Ids(last.outputs)
    requires var n := |recs| - 1; k in Built(hashmap, ns[..n], recs[..n], ins[..n], outs[..n])
    ensures var n := |recs| - 1;
            k in Built(hashmap, ns, recs, ins, outs) &&
            Built(hashmap, ns, recs, ins, outs)[k] == Built(hashmap, ns[..n], recs[..n], ins[..n], outs[..n])[k]
  {
    var n := |recs| - 1;
    EnteredKeeps(Built(hashmap, ns[..n], recs[..n], ins[..n], outs[..n]), ns[n], recs[n], ins[n], outs[n], k);
  }

  /** Deserializing one node names under the id of its input `j` (sorted)
      that input's socket, when no later input and no output carries the id. */
  lemma EnteredNamesInput(hashmap: HashMap, n: Node, rec: LegacyNodeRecord, inputs: seq<Socket>, outputs: seq<Socket>, j: nat)
    requires |inputs| == |rec.inputs| && |outputs| == |rec.outputs| && j < |rec.inputs|
    requires forall j' :: j < j' < |rec.inputs| ==>
      SortBy(rec.inputs, LegacySocketKey)[j'].id != SortBy(rec.inputs, LegacySocketKey)[j].id
    requires SortBy(rec.inputs, LegacySocketKey)[j].id !in Ids(rec.outputs)
    ensures var k := SortBy(rec.inputs, LegacySocketKey)[j].id;
            k in Entered(hashmap, n, rec, inputs, outputs) && Entered(hashmap, n, rec, inputs, outputs)[k] == SocketEntry(inputs[j])
  {
    var h0 := hashmap[rec.id := NodeEntry(n)];
    EnterLast(h0, SortBy(rec.inputs, LegacySocketKey), inputs, j);
    IdsSorted(rec.outputs);
    EnterEntries(Enter(h0, SortBy(rec.inputs, LegacySocketKey), inputs), SortBy(rec.outputs, LegacySocketKey), outputs);
  }

  /** The table names under an id the socket made from the last socket
      record carrying it, records taken node by node, inputs (sorted)
      before outputs (sorted); here that record is input `j` of node `i`. */
  lemma {:induction false} BuiltNamesInput(hashmap: HashMap, ns: seq<Node>, recs: seq<LegacyNodeRecord>,
                                           ins: seq<seq<Socket>>, outs: seq<seq<Socket>>, i: nat, j: nat)
    requires |ns| == |recs| && Shaped(recs, ins, outs) && i < |recs| && j < |recs[i].inputs| && LastInput(recs, i, j)
    ensures var k := SortBy(recs[i].inputs, LegacySocketKey)[j].id;
            k in Built(hashmap, ns, recs, ins, outs) && Built(hashmap, ns, recs, ins, outs)[k] == SocketEntry(ins[i][j])
    decreases |recs|, 1
  {
    if i == |recs| - 1 {
      BuiltNamesInputHere(hashmap, ns, recs, ins, outs, i, j);
    } else {
      BuiltNamesInputKept(hashmap, ns, recs, ins, outs, i, j);
    }
  }

  /** What `BuiltNamesInput` asks of its inputs holds once the last node
      is dropped, when node `i` is not the last one. */
  lemma BuiltNamesInputStep(ns: seq<Node>, recs: seq<LegacyNodeRecord>, ins: seq<seq<Socket>>, outs: seq<seq<Socket>>, i: nat, j: nat)
    requires |ns| == |recs| && Shaped(recs, ins, outs) && i < |recs| - 1 && j < |recs[i].inputs| && LastInput(recs, i, j)
    ensures var n := |recs| - 1;
            |ns[..n]| == |recs[..n]| && Shaped(recs[..n], ins[..n], outs[..n]) && i < |recs[..n]| &&
            j < |recs[..n][i].inputs| && LastInput(recs[..n], i, j)
  {
    ShapedPrefix(ns, recs, ins, outs);
    LastInputPrefix(recs, i, j);
  }

  /** `BuiltNamesInput` when node `i` is the last one. */
  lemma BuiltNamesInputHere(hashmap: HashMap, ns: seq<Node>, recs: seq<LegacyNodeRecord>,
                            ins: seq<seq<Socket>>, outs: seq<seq<Socket>>, i: nat, j: nat)
    requires |ns| == |recs| && Shaped(recs, ins, outs) && i == |recs| - 1 && j < |recs[i].inputs| && LastInput(recs, i, j)
    ensures var k := SortBy(recs[i].inputs, LegacySocketKey)[j].id;
            k in Built(hashmap, ns, recs, ins, outs) && Built(hashmap, ns, recs, ins, outs)[k] == SocketEntry(ins[i][j])
  {
    var n := |recs| - 1;
    var k := SortBy(recs[i].inputs, LegacySocketKey)[j].id;
    ShapedPrefix(ns, recs, ins, outs);
    EnteredNamesInput(Built(hashmap, ns[..n], recs[..n], ins[..n], outs[..n]), ns[n], recs[n], ins[n], outs[n], j);
    BuiltLast(hashmap, ns, recs, ins, outs, k, SocketEntry(ins[n][j]));
  }

  /** `BuiltNamesInput` for an earlier node: it holds once the last node is
      dropped, and the last node does not enter the id. */
  lemma {:induction false} BuiltNamesInputKept(hashmap: HashMap, ns: seq<Node>, recs: seq<LegacyNodeRecord>,
                            ins: seq<seq<Socket>>, outs: seq<seq<Socket>>, i: nat, j: nat)
    requires |ns| == |recs| && Shaped(recs, ins, outs) && i < |recs| - 1 && j < |recs[i].inputs| && LastInput(recs, i, j)
    ensures var k := SortBy(recs[i].inputs, LegacySocketKey)[j].id;
            k in Built(hashmap, ns, recs, ins, outs) && Built(hashmap, ns, recs, ins, outs)[k] == SocketEntry(ins[i][j])
    decreases |recs|, 0
  {
    var n := |recs| - 1;
    BuiltNamesInputStep(ns, recs, ins, outs, i, j);
    BuiltNamesInput(hashmap, ns[..n], recs[..n], ins[..n], outs[..n], i, j);
    assert recs[..n][i] == recs[i] && ins[..n][i] == ins[i];
    LastInputPrefix(recs, i, j);
    BuiltKeeps(hashmap, ns, recs, ins, outs, SortBy(recs[i].inputs, LegacySocketKey)[j].id);
  }

  /** Deserializing one node names under the id of its output `j` (sorted)
      that output's socket, when no later output carries the id. */
  lemma EnteredNamesOutput(hashmap: HashMap, n: Node, rec: LegacyNodeRecord, inputs: seq<Socket>, outputs: seq<Socket>, j: nat)
    requires |inputs| == |rec.inputs| && |outputs| == |rec.outputs| && j < |rec.outputs|
    requires forall j' :: j < j' < |rec.outputs| ==>
      SortBy(rec.outputs, LegacySocketKey)[j'].id != SortBy(rec.outputs, LegacySocketKey)[j].id
    ensures var k := SortBy(rec.outputs, LegacySocketKey)[j].id;
            k in Entered(hashmap, n, rec, inputs, outputs) && Entered(hashmap, n, rec, inputs, outputs)[k] == SocketEntry(outputs[j])
  {
    var inner := Enter(hashmap[rec.id := NodeEntry(n)], SortBy(rec.inputs, LegacySocketKey), inputs);
    EnterLast(inner, SortBy(rec.outputs, LegacySocketKey), outputs, j);
  }

  /** As `BuiltNamesInput`, when the last record carrying the id is output
      `j` of node `i`. */
  lemma {:induction false} BuiltNamesOutput(hashmap: HashMap, ns: seq<Node>, recs: seq<LegacyNodeRecord>,
                                            ins: seq<seq<Socket>>, outs: seq<seq<Socket>>, i: nat, j: nat)
    requires |ns| == |recs| && Shaped(recs, ins, outs) && i < |recs| && j < |recs[i].outputs| && LastOutput(recs, i, j)
    ensures var k := SortBy(recs[i].outputs, LegacySocketKey)[j].id;
            k in Built(hashmap, ns, recs, ins, outs) && Built(hashmap, ns, recs, ins, outs)[k] == SocketEntry(outs[i][j])
    decreases |recs|, 1
  {
    if i == |recs| - 1 {
      BuiltNamesOutputHere(hashmap, ns, recs, ins, outs, i, j);
    } else {
      BuiltNamesOutputKept(hashmap, ns, recs, ins, outs, i, j);
    }
  }

  /** What `BuiltNamesOutput` asks of its inputs holds once the last node
      is dropped, when node `i` is not the last one. */
  lemma BuiltNamesOutputStep(ns: seq<Node>, recs: seq<LegacyNodeRecord>, ins: seq<seq<Socket>>, outs: seq<seq<Socket>>, i: nat, j: nat)
    requires |ns| == |recs| && Shaped(recs, ins, outs) && i < |recs| - 1 && j < |recs[i].outputs| && LastOutput(recs, i, j)
    ensures var n := |recs| - 1;
            |ns[..n]| == |recs[..n]| && Shaped(recs[..n], ins[..n], outs[..n]) && i < |recs[..n]| &&
            j < |recs[..n][i].outputs| && LastOutput(recs[..n], i, j)
  {
    ShapedPrefix(ns, recs, ins, outs);
    LastOutputPrefix(recs, i, j);
  }

  /** `BuiltNamesOutput` when node `i` is the last one. */
  lemma BuiltNamesOutputHere(hashmap: HashMap, ns: seq<Node>, recs: seq<LegacyNodeRecord>,
                            ins: seq<seq<Socket>>, outs: seq<seq<Socket>>, i: nat, j: nat)
    requires |ns| == |recs| && Shaped(recs, ins, outs) && i == |recs| - 1 && j < |recs[i].outputs| && LastOutput(recs, i, j)
    ensures var k := SortBy(recs[i].outputs, LegacySocketKey)[j].id;
            k in Built(hashmap, ns, recs, ins, outs) && Built(hashmap, ns, recs, ins, outs)[k] == SocketEntry(outs[i][j])
  {
    var n := |recs| - 1;
    var k := SortBy(recs[i].outputs, LegacySocketKey)[j].id;
    ShapedPrefix(ns, recs, ins, outs);
    EnteredNamesOutput(Built(hashmap, ns[..n], recs[..n], ins[..n], outs[..n]), ns[n], recs[n], ins[n], outs[n], j);
    BuiltLast(hashmap, ns, recs, ins, outs, k, SocketEntry(outs[n][j]));
  }

  /** `BuiltNamesOutput` for an earlier node: it holds once the last node is
      dropped, and the last node does not enter the id. */
  lemma {:induction false} BuiltNamesOutputKept(hashmap: HashMap, ns: seq<Node>, recs: seq<LegacyNodeRecord>,
                            ins: seq<seq<Socket>>, outs: seq<seq<Socket>>, i: nat, j: nat)
    requires |ns| == |recs| && Shaped(recs, ins, outs) && i < |recs| - 1 && j < |recs[i].outputs| && LastOutput(recs, i, j)
    ensures var k := SortBy(recs[i].outputs, LegacySocketKey)[j].id;
            k in Built(hashmap, ns, recs, ins, outs) && Built(hashmap, ns, recs, ins, outs)[k] == SocketEntry(outs[i][j])
    decreases |recs|, 0
  {
    var n := |recs| - 1;
    BuiltNamesOutputStep(ns, recs, ins, outs, i, j);
    BuiltNamesOutput(hashmap, ns[..n], recs[..n], ins[..n], outs[..n], i, j);
    assert recs[..n][i] == recs[i] && outs[..n][i] == outs[i];
    LastOutputPrefix(recs, i, j);
    BuiltKeeps(hashmap, ns, recs, ins, outs, SortBy(recs[i].outputs, LegacySocketKey)[j].id);
  }

  /** The input lists of the nodes, in order. */
  ghost function InputLists(ns: seq<Node>): (r: seq<seq<Socket>>)
    reads ns`inputs
    ensures |r| == |ns| && forall i :: 0 <= i < |ns| ==> r[i] == ns[i].inputs
  {
    if ns == [] then [] else InputLists(ns[..|ns| - 1]) + [ns[|ns| - 1].inputs]
  }

  /** The output lists of the nodes, in order. */
  ghost function OutputLists(ns: seq<Node>): (r: seq<seq<Socket>>)
    reads ns`outputs
    ensures |r| == |ns| && forall i :: 0 <= i < |ns| ==> r[i] == ns[i].outputs
  {
    if ns == [] then [] else OutputLists(ns[..|ns| - 1]) + [ns[|ns| - 1].outputs]
  }

  /** The last `|recs|` edges, in order, join the sockets the table names
      under their records' ends. */
  ghost predicate Joined(hashmap: HashMap, edges: seq<Edge>, recs: seq<EdgeRecord>)
    reads edges`start, edges`end
  {
    |edges| >= |recs| &&
    forall j :: 0 <= j < |recs| ==>
      NamesSocket(hashmap, recs[j].start) && NamesSocket(hashmap, recs[j].end) &&
      edges[|edges| - |recs| + j].start == hashmap[recs[j].start].socket &&
      edges[|edges| - |recs| + j].end == hashmap[recs[j].end].socket
  }

  /** One more edge, joining the sockets its record names, keeps `Joined`. */
  lemma JoinedNext(hashmap: HashMap, edges: seq<Edge>, recs: seq<EdgeRecord>, e: Edge, rec: EdgeRecord)
    requires Joined(hashmap, edges, recs)
    requires NamesSocket(hashmap, rec.start) && NamesSocket(hashmap, rec.end)
    requires e.start == hashmap[rec.start].socket && e.end == hashmap[rec.end].socket
    ensures Joined(hashmap, edges + [e], recs + [rec])
  {
  }

  /** Edges listed before the joined ones do not matter. */
  lemma JoinedAfter(hashmap: HashMap, before: seq<Edge>, edges: seq<Edge>, recs: seq<EdgeRecord>)
    requires Joined(hashmap, edges, recs)
    ensures Joined(hashmap, before + edges, recs)
  {
  }

  /** The state the edge loop of `deserialize` keeps: every record read so
      far resolves, and the edges `loaded` for them serialize back to them
      and join the sockets they name. */
  ghost predicate Reading(hashmap: HashMap, nodeRecs: seq<LegacyNodeRecord>, loaded: seq<Edge>, done: seq<EdgeRecord>)
    reads loaded
  {
    var reading := AllResolve(nodeRecs, done) && EdgeDocs(loaded) == Some(done) && Joined(hashmap, loaded, done);
    reading
  }

  lemma ReadingNext(hashmap: HashMap, nodeRecs: seq<LegacyNodeRecord>, loaded: seq<Edge>, done: seq<EdgeRecord>,
                    e: Edge, rec: EdgeRecord)
    requires Reading(hashmap, nodeRecs, loaded, done) && Resolves(nodeRecs, rec) && e.Doc() == Some(rec)
    requires NamesSocket(hashmap, rec.start) && NamesSocket(hashmap, rec.end)
    requires e.start == hashmap[rec.start].socket && e.end == hashmap[rec.end].socket
    ensures Reading(hashmap, nodeRecs, loaded + [e], done + [rec])
  {
    EdgeDocsAppend(loaded, done, e, rec);
    JoinedNext(hashmap, loaded, done, e, rec);
    AllResolveAppend(nodeRecs, done, rec);
  }

  /** The setters of an edge deserialized from `rec` point `s` at it: `s`
      is the socket the start names, or the one the end names when the start
      names a socket too (a failed start lookup stops before the end). */
  predicate Bound(hashmap: HashMap, rec: EdgeRecord, s: Socket)
  {
    NamesSocket(hashmap, rec.start) &&
    (hashmap[rec.start].socket == s || (NamesSocket(hashmap, rec.end) && hashmap[rec.end].socket == s))
  }

  /** The edge `s` holds once the edges `loaded` were deserialized from
      `recs` in order, when it held `was` before: each setter overwrites. */
  function Holder(hashmap: HashMap, recs: seq<EdgeRecord>, loaded: seq<Edge>, s: Socket, was: Edge?): Edge?
    requires |loaded| == |recs|
  {
    if recs == [] then was
    else if Bound(hashmap, recs[|recs| - 1], s) then loaded[|recs| - 1]
    else Holder(hashmap, recs[..|recs| - 1], loaded[..|loaded| - 1], s, was)
  }

  /** A socket that no record binds keeps the edge it held. */
  lemma {:induction false} HolderUnbound(hashmap: HashMap, recs: seq<EdgeRecord>, loaded: seq<Edge>, s: Socket, was: Edge?)
    requires |loaded| == |recs| && forall i :: 0 <= i < |recs| ==> !Bound(hashmap, recs[i], s)
    ensures Holder(hashmap, recs, loaded, s, was) == was
  {
    if recs != [] {
      var k := |recs| - 1;
      assert forall i :: 0 <= i < k ==> recs[..k][i] == recs[i];
      HolderUnbound(hashmap, recs[..k], loaded[..k], s, was);
    }
  }

  /** A socket that record `i` binds, and no later record, holds the edge
      deserialized from record `i`. */
  lemma {:induction false} HolderLast(hashmap: HashMap, recs: seq<EdgeRecord>, loaded: seq<Edge>, s: Socket, was: Edge?, i: nat)
    requires |loaded| == |recs| && i < |recs| && Bound(hashmap, recs[i], s)
    requires forall j :: i < j < |recs| ==> !Bound(hashmap, recs[j], s)
    ensures Holder(hashmap, recs, loaded, s, was) == loaded[i]
  {
    var k := |recs| - 1;
    if i < k {
      assert forall j :: i < j < k ==> recs[..k][j] == recs[j];
      HolderLast(hashmap, recs[..k], loaded[..k], s, was, i);
    }
  }

  /** The edge `was` records for `s`, none when it lists no edge for `s`. */
  function Was(was: map<Socket, Edge?>, s: Socket): Edge?
  {
    if s in was then was[s] else null
  }

  /** One more edge deserialized from `rec` extends `Holder` by one step. */
  lemma HolderNext(hashmap: HashMap, recs: seq<EdgeRecord>, loaded: seq<Edge>, s: Socket, was: Edge?, rec: EdgeRecord, e: Edge)
    requires |loaded| == |recs|
    ensures Holder(hashmap, recs + [rec], loaded + [e], s, was) ==
              if Bound(hashmap, rec, s) then e else Holder(hashmap, recs, loaded, s, was)
  {
    assert (recs + [rec])[..|recs|] == recs && (loaded + [e])[..|loaded|] == loaded;
  }

  /** The sockets `_init_sockets` lays out on one side: indices counting up
      from 0, one per requested type, all at `position`. */
  predicate Laid(ss: seq<Socket>, types: seq<int>, position: int)
  {
    |ss| == |types| &&
    forall k :: 0 <= k < |ss| ==> ss[k].index == k && ss[k].position == position && ss[k].socketType == types[k]
  }

  class Scene {
    var id: int
    var width: int
    var height: int
    var nodes: seq<Node>
    var edges: seq<Edge>
    var mode: Mode
    const ids: IdSource

    ghost var NodeSet: set<Node>
    ghost var SocketSet: set<Socket>
    ghost var EdgeSet: set<Edge>

    /** The lists, the nodes' sockets, the sockets' edges and the edges'
        ends stay inside the arenas, nodes and edges belong to this scene,
        and neither list repeats an entry. */
    ghost predicate Valid()
      reads this, NodeSet, SocketSet, EdgeSet
    {
      (forall n :: n in nodes ==> n in NodeSet) &&
      (forall e :: e in edges ==> e in EdgeSet) &&
      (forall n :: n in NodeSet ==> n.scene == this) &&
      (forall n, s :: n in NodeSet && s in n.inputs + n.outputs ==> s in SocketSet) &&
      (forall s :: s in SocketSet && s.edge != null ==> s.edge in EdgeSet) &&
      (forall e :: e in EdgeSet ==> e.scene == this) &&
      (forall e :: e in EdgeSet && e.start != null ==> e.start in SocketSet) &&
      (forall e :: e in EdgeSet && e.end != null ==> e.end in SocketSet) &&
      NoDup(nodes) && NoDup(edges)
    }

    /** `Valid`, handed on as one fact by the operations that only delegate
        to others (the binding keeps the verifier from splitting it). */
    ghost predicate Sound()
      reads this, NodeSet, SocketSet, EdgeSet
    {
      var valid := Valid(); valid
    }

    /** Every socket that holds an edge is one of that edge's ends. */
    ghost predicate Anchored()
      reads this, SocketSet, EdgeSet
    {
      forall s :: s in SocketSet && s.edge != null ==> s.edge in EdgeSet && (s.edge.start == s || s.edge.end == s)
    }

    /** `Anchored`, and the other way round as well: every end of an edge
        holds that edge. Then removing an edge clears exactly the sockets
        that held it. */
    ghost predicate Mutual()
      reads this, SocketSet, EdgeSet
    {
      Anchored() &&
      forall e :: e in EdgeSet ==>
        (e.start != null && e.start in SocketSet ==> e.start.edge == e) &&
        (e.end != null && e.end in SocketSet ==> e.end.edge == e)
    }

    /** `Valid`, and `Anchored` too when `anchored` holds, handed on as one
        fact by loops that remove edges one at a time. */
    ghost predicate Kept(anchored: bool)
      reads this, NodeSet, SocketSet, EdgeSet
    {
      var kept := Valid() && (anchored ==> Anchored()); kept
    }

    /** The outcome of the edge loop of `deserialize`: `ok` exactly when
        every edge record names two sockets of the loaded nodes, and then the
        last edges of the scene serialize back to the records. */
    ghost predicate EdgesRead(nodeRecs: seq<LegacyNodeRecord>, recs: seq<EdgeRecord>, ok: bool)
      reads this`edges, edges
    {
      var read := (ok == AllResolve(nodeRecs, recs)) &&
                  (ok ==> |edges| >= |recs| && EdgeDocs(edges[|edges| - |recs|..]) == Some(recs));
      read
    }

    /** `hashmap` is the table the node loop of `deserialize` builds from
        `recs` into an empty table, one listed node per record. */
    ghost predicate Tabled(hashmap: HashMap, recs: seq<LegacyNodeRecord>)
      reads this`nodes, nodes`inputs, nodes`outputs
    {
      var tabled := |nodes| == |recs| && Shaped(recs, InputLists(nodes), OutputLists(nodes)) &&
                    hashmap == Built(map[], nodes, recs, InputLists(nodes), OutputLists(nodes));
      tabled
    }

    /** `Tabled`, with the nodes' socket lists recorded in `ins` and `outs`
        as the loop goes. */
    ghost predicate Building(hashmap: HashMap, recs: seq<LegacyNodeRecord>, ins: seq<seq<Socket>>, outs: seq<seq<Socket>>)
      reads this`nodes, nodes`inputs, nodes`outputs
    {
      var building := |nodes| == |recs| && Shaped(recs, ins, outs) &&
                      (forall j :: 0 <= j < |recs| ==> nodes[j].inputs == ins[j] && nodes[j].outputs == outs[j]) &&
                      hashmap == Built(map[], nodes, recs, ins, outs);
      building
    }

    lemma BuildingTabled(hashmap: HashMap, recs: seq<LegacyNodeRecord>, ins: seq<seq<Socket>>, outs: seq<seq<Socket>>)
      requires Building(hashmap, recs, ins, outs)
      ensures Tabled(hashmap, recs)
    {
      assert InputLists(nodes) == ins && OutputLists(nodes) == outs;
    }

    /** One more node `n`, deserialized from `rec` into the table and
        listed last, extends what the nodes before it built. */
    lemma BuildingStep(hashmap: HashMap, recs: seq<LegacyNodeRecord>, ins: seq<seq<Socket>>, outs: seq<seq<Socket>>,
                       n: Node, rec: LegacyNodeRecord)
      requires 0 < |nodes| && nodes[|nodes| - 1] == n && |n.inputs| == |rec.inputs| && |n.outputs| == |rec.outputs|
      requires |nodes| - 1 == |recs| && Shaped(recs, ins, outs)
      requires forall j :: 0 <= j < |recs| ==> nodes[j].inputs == ins[j] && nodes[j].outputs == outs[j]
      requires hashmap == Built(map[], nodes[..|nodes| - 1], recs, ins, outs)
      ensures Building(Entered(hashmap, n, rec, n.inputs, n.outputs), recs + [rec], ins + [n.inputs], outs + [n.outputs])
    {
      BuiltNext(map[], nodes[..|nodes| - 1], recs, ins, outs, n, rec, n.inputs, n.outputs);
      assert nodes == nodes[..|nodes| - 1] + [n];
    }

    /** The table the node loop of `deserialize` leaves when it loads the
        listed nodes from `nodeRecs` into an empty table (empty when the
        nodes do not match the records). */
    ghost function Table(nodeRecs: seq<LegacyNodeRecord>): HashMap
      reads this`nodes, nodes`inputs, nodes`outputs
    {
      if |nodes| == |nodeRecs| && Shaped(nodeRecs, InputLists(nodes), OutputLists(nodes))
      then Built(map[], nodes, nodeRecs, InputLists(nodes), OutputLists(nodes))
      else map[]
    }

    /** The edge each socket of the arena holds. */
    ghost function Bindings(): map<Socket, Edge?>
      reads this`SocketSet, SocketSet
    {
      map s | s in SocketSet :: s.edge
    }

    /** The edges listed behind `before` were deserialized from `done`, in
        order, and every socket holds the edge `Holder` gives for them,
        starting from the edge `was` records for it (none for a socket `was`
        does not list). */
    ghost predicate Held(hashmap: HashMap, done: seq<EdgeRecord>, before: seq<Edge>, was: map<Socket, Edge?>)
      reads this`edges, this`SocketSet, SocketSet
    {
      var held := before <= edges && |edges| - |before| == |done| &&
                  forall s {:trigger Was(was, s)} :: s in SocketSet ==> s.edge == Holder(hashmap, done, edges[|before|..], s, Was(was, s));
      held
    }

    /** The last `|done|` edges were deserialized from `done`, in order, and
        every socket added since the arena was `known` holds the edge of the
        last record that binds it, or none. */
    ghost predicate HeldNew(hashmap: HashMap, done: seq<EdgeRecord>, known: set<Socket>)
      reads this`edges, this`SocketSet, SocketSet
    {
      var held := |done| <= |edges| &&
                  forall s :: s in SocketSet && s !in known ==> s.edge == Holder(hashmap, done, edges[|edges| - |done|..], s, null);
      held
    }

    /** Under `Held`, a socket `was` does not list (one added since the
        arena was `known`) holds the edge of the last record that binds it,
        or none. */
    lemma HeldFresh(hashmap: HashMap, done: seq<EdgeRecord>, before: seq<Edge>, was: map<Socket, Edge?>, known: set<Socket>)
      requires was.Keys == known && Held(hashmap, done, before, was)
      ensures HeldNew(hashmap, done, known)
    {
      forall s | s in SocketSet && s !in known
        ensures s.edge == Holder(hashmap, done, edges[|edges| - |done|..], s, null)
      {
        assert s !in was && Was(was, s) == null;
      }
    }

    /** `Bindings` records what every socket holds. */
    lemma BindingsWas(was: map<Socket, Edge?>)
      requires was == Bindings()
      ensures was.Keys == SocketSet
      ensures forall s {:trigger Was(was, s)} :: s in SocketSet ==> s.edge == Was(was, s)
    {
    }

    /** Each of the last `|recs|` edges joins the two sockets that the
        nodes, deserialized from `nodeRecs` into an empty table, leave named
        under its record's ends. */
    ghost predicate EdgesJoin(nodeRecs: seq<LegacyNodeRecord>, recs: seq<EdgeRecord>)
      reads this`nodes, nodes`inputs, nodes`outputs, this`edges, edges`start, edges`end
    {
      var join := |nodes| == |nodeRecs| && Shaped(nodeRecs, InputLists(nodes), OutputLists(nodes)) &&
                  Joined(Built(map[], nodes, nodeRecs, InputLists(nodes), OutputLists(nodes)), edges, recs);
      join
    }

    /** Edges joined through the table the node loop built join the
        sockets its nodes leave named. */
    lemma TabledJoin(hashmap: HashMap, nodeRecs: seq<LegacyNodeRecord>, recs: seq<EdgeRecord>)
      requires Tabled(hashmap, nodeRecs) && Joined(hashmap, edges, recs)
      ensures EdgesJoin(nodeRecs, recs)
    {
    }

    /** A new scene: no nodes or edges, 64000 by 64000, mode NONE. */
    constructor(firstId: int)
      ensures Valid() && Anchored()
      ensures id == firstId && fresh(ids) && ids.next == firstId + 1
      ensures nodes == [] && edges == [] && width == 64000 && height == 64000 && mode == Idle
      ensures NodeSet == {} && SocketSet == {} && EdgeSet == {}
    {
      id := firstId;
      ids := new IdSource(firstId + 1);
      nodes, edges := [], [];
      width, height := 64000, 64000;
      mode := Idle;
      NodeSet, SocketSet, EdgeSet := {}, {}, {};
    }

    method AddNode(n: Node)
      modifies this`nodes
      ensures nodes == old(nodes) + [n]
    {
      nodes := nodes + [n];
    }

    method AddEdge(e: Edge)
      modifies this`edges
      ensures edges == old(edges) + [e]
    {
      edges := edges + [e];
    }

    /** `nodes.remove(n)`: drops the first occurrence. `found` is false
        where the source raises ValueError, and the list is then unchanged. */
    method RemoveNode(n: Node) returns (found: bool)
      modifies this`nodes
      ensures found == (n in old(nodes))
      ensures nodes == Erase(old(nodes), n)
    {
      found := n in nodes;
      if found {
        nodes := Erase(nodes, n);
      }
    }

    /** `edges.remove(e)`: drops the first occurrence. `found` is false
        where the source raises ValueError, and the list is then unchanged. */
    method RemoveEdge(e: Edge) returns (found: bool)
      modifies this`edges
      ensures found == (e in old(edges))
      ensures edges == Erase(old(edges), e)
    {
      found := e in edges;
      if found {
        edges := Erase(edges, e);
      }
    }

    /** `clear`: the first node is removed until none is left. Each removal
        takes the node out of the list, so the loop ends. Edges only leave
        the scene. When every bound socket was an end of its edge, no socket
        of a removed node holds an edge afterwards; when every end of an
        edge held it as well, each edge a socket of a removed node held has
        left the scene. */
    method Clear()
      requires Valid()
      modifies this`nodes, this`edges, SocketSet`edge, EdgeSet`start, EdgeSet`end
      ensures Valid() && nodes == []
      ensures forall e :: e in edges ==> e in old(edges)
      ensures old(Anchored()) ==> Anchored() && forall n, s :: n in old(nodes) && s in n.inputs + n.outputs ==> s.edge == null
      ensures old(Mutual()) ==> Mutual()
      ensures old(Mutual()) ==> forall n, s :: n in old(nodes) && s in n.inputs + n.outputs && old(s.edge) != null ==> old(s.edge) !in edges
    {
      while nodes != []
        invariant Valid()
        invariant forall n :: n in nodes ==> n in old(nodes)
        invariant forall e :: e in edges ==> e in old(edges)
        invariant old(Anchored()) ==> Anchored()
        invariant old(Anchored()) ==> forall n, s :: n in old(nodes) && n !in nodes && s in n.inputs + n.outputs ==> s.edge == null
        invariant old(Mutual()) ==> Mutual()
        invariant old(Mutual()) ==> forall s :: s in SocketSet && old(s.edge) != null ==> s.edge == old(s.edge) || old(s.edge) !in edges
        decreases |nodes|
      {
        var n := nodes[0];
        EraseLength(nodes, n);
        EraseNoDup(nodes, n);
        var found := n.Remove();
      }
    }

    /** `serialize`: the header, the records of the nodes and the records of
        the edges, both in list order. Serializing an edge with a missing
        end raises, so such a scene has no record. */
    function Doc(): (r: Option<LegacySceneRecord>)
      reads this, nodes, edges
      ensures r.Some? <==> forall e :: e in edges ==> e.start != null && e.end != null
      ensures r.Some? ==> r.value.id == id && r.value.width == width && r.value.height == height
      ensures r.Some? ==> r.value.nodes == NodeDocs(nodes) && Some(r.value.edges) == EdgeDocs(edges)
    {
      match EdgeDocs(edges)
      case None => None
      case Some(es) => Some(LegacySceneRecord(id, width, height, NodeDocs(nodes), es))
    }

    /** `serialize`, with its two append loops; the loop over the edges stops
        at the first edge with a missing end. */
    method Serialize() returns (r: Option<LegacySceneRecord>)
      ensures r == Doc()
    {
      var ns: seq<LegacyNodeRecord> := [];
      for k := 0 to |nodes|
        invariant ns == NodeDocs(nodes[..k])
      {
        var d := nodes[k].Serialize();
        assert nodes[..k + 1][..k] == nodes[..k];
        ns := ns + [d];
      }
      var es: seq<EdgeRecord> := [];
      for k := 0 to |edges|
        invariant EdgeDocs(edges[..k]) == Some(es)
      {
        var d := edges[k].Doc();
        assert edges[..k + 1][..k] == edges[..k];
        if d.None? {
          assert edges[..k + 1][k] == edges[k];
          assert !(forall e :: e in edges ==> e.start != null && e.end != null);
          return None;
        }
        es := es + [d.value];
      }
      assert nodes[..|nodes|] == nodes && edges[..|edges|] == edges;
      r := Some(LegacySceneRecord(id, width, height, ns, es));
    }

    /** `deserialize`: the scene is cleared and its size taken from the
        record (its id is not); each node record makes a new node, which is
        deserialized into one id table that starts empty; then each edge
        record makes a new edge, deserialized against that table. A record
        whose ends do not both name sockets makes the source raise, which
        the model reports as `ok` false after that edge. The nodes serialize
        back to their records with the socket records sorted, and on
        success the new edges serialize back to theirs. */
    method Deserialize(data: LegacySceneRecord) returns (ok: bool)
      requires Sound()
      modifies this`width, this`height, this`nodes, this`edges, this`NodeSet, this`SocketSet, this`EdgeSet, ids
      modifies SocketSet`edge, EdgeSet`start, EdgeSet`end
      ensures Sound() && id == old(id) && width == data.width && height == data.height
      ensures NodesLoaded(NodeDocs(nodes), data.nodes)
      ensures EdgesRead(data.nodes, data.edges, ok)
      ensures ok ==> EdgesJoin(data.nodes, data.edges)
      ensures ok ==> forall s :: s in SocketSet && s !in old(SocketSet) ==>
                s.edge == Holder(Table(data.nodes), data.edges, edges[|edges| - |data.edges|..], s, null)
      ensures old(Anchored()) ==> Anchored()
    {
      Reset(data);
      ghost var was := Bindings();
      BindingsWas(was);
      ok := Reload(data, was);
    }

    /** The node and edge loops of `deserialize` on a cleared scene, stated
        for the sockets they create. */
    method Reload(data: LegacySceneRecord, ghost was: map<Socket, Edge?>) returns (ok: bool)
      requires Sound() && nodes == [] && was.Keys == SocketSet
      requires forall s {:trigger Was(was, s)} :: s in SocketSet ==> s.edge == Was(was, s)
      modifies this`nodes, this`edges, this`NodeSet, this`SocketSet, this`EdgeSet, ids, SocketSet`edge
      ensures Sound()
      ensures NodesLoaded(NodeDocs(nodes), data.nodes)
      ensures EdgesRead(data.nodes, data.edges, ok)
      ensures ok ==> EdgesJoin(data.nodes, data.edges)
      ensures ok ==> HeldNew(Table(data.nodes), data.edges, old(SocketSet))
      ensures old(Anchored()) ==> Anchored()
    {
      ok := Populate(data, was);
      if ok {
        HeldFresh(Table(data.nodes), data.edges, old(edges), was, old(SocketSet));
      }
    }

    /** The start of `deserialize`: `clear`, then the size. */
    method Reset(data: LegacySceneRecord)
      requires Sound()
      modifies this`width, this`height, this`nodes, this`edges, SocketSet`edge, EdgeSet`start, EdgeSet`end
      ensures Sound() && nodes == [] && width == data.width && height == data.height
      ensures old(Anchored()) ==> Anchored()
    {
      Clear();
      width, height := data.width, data.height;
    }

    /** The node and edge loops of `deserialize`, on a cleared scene. */
    method Populate(data: LegacySceneRecord, ghost was: map<Socket, Edge?>) returns (ok: bool)
      requires Sound() && nodes == [] && was.Keys == SocketSet
      requires forall s {:trigger Was(was, s)} :: s in SocketSet ==> s.edge == Was(was, s)
      modifies this`nodes, this`edges, this`NodeSet, this`SocketSet, this`EdgeSet, ids, SocketSet`edge
      ensures Sound()
      ensures NodesLoaded(NodeDocs(nodes), data.nodes)
      ensures EdgesRead(data.nodes, data.edges, ok)
      ensures ok ==> EdgesJoin(data.nodes, data.edges)
      ensures old(edges) <= edges
      ensures |edges| - |old(edges)| <= |data.edges| && (ok ==> |edges| - |old(edges)| == |data.edges|)
      ensures Held(Table(data.nodes), data.edges[..|edges| - |old(edges)|], old(edges), was)
      ensures ok ==> Held(Table(data.nodes), data.edges, old(edges), was)
      ensures old(Anchored()) ==> Anchored()
    {
      var h := LoadTable(data.nodes, was);
      ghost var docs := NodeDocs(nodes);
      ok := JoinEdges(data.edges, h, data.nodes, was);
      assert NodeDocs(nodes) == docs && Table(data.nodes) == h;
    }

    /** The node loop of `deserialize`, on a cleared scene: the table is
        the one `Table` gives, and every socket holds what `was` records
        (the new ones none). */
    method LoadTable(recs: seq<LegacyNodeRecord>, ghost was: map<Socket, Edge?>) returns (h: HashMap)
      requires Sound() && nodes == [] && was.Keys == SocketSet
      requires forall s {:trigger Was(was, s)} :: s in SocketSet ==> s.edge == Was(was, s)
      modifies this`nodes, this`NodeSet, this`SocketSet, ids
      ensures Valid() && Indexes(h, recs, SocketSet) && Tabled(h, recs) && h == Table(recs)
      ensures NodesLoaded(NodeDocs(nodes), recs) && fresh(SocketSet - old(SocketSet))
      ensures forall s {:trigger Was(was, s)} :: s in SocketSet ==> s.edge == Was(was, s)
      ensures old(Anchored()) ==> Anchored()
    {
      h := LoadNodes(recs);
      WasKept(was);
    }

    /** Sockets that keep their edge and new sockets that hold none still
        hold what `was` records. */
    twostate lemma WasKept(was: map<Socket, Edge?>)
      requires was.Keys == old(SocketSet) && Unbound(SocketSet - old(SocketSet))
      requires forall s {:trigger Was(was, s)} :: s in old(SocketSet) ==> old(s.edge) == Was(was, s)
      requires forall s :: s in old(SocketSet) ==> s.edge == old(s.edge)
      ensures forall s {:trigger Was(was, s)} :: s in SocketSet ==> s.edge == Was(was, s)
    {
      forall s | s in SocketSet
        ensures s.edge == Was(was, s)
      {
        if s !in old(SocketSet) {
          assert s in SocketSet - old(SocketSet) && s !in was;
        }
      }
    }

    /** The node loop of `deserialize`, on a cleared scene. */
    method LoadNodes(recs: seq<LegacyNodeRecord>) returns (h: HashMap)
      requires Valid() && nodes == []
      modifies this`nodes, this`NodeSet, this`SocketSet, ids
      ensures Valid() && Indexes(h, recs, SocketSet) && fresh(SocketSet - old(SocketSet))
      ensures Unbound(SocketSet - old(SocketSet)) && (old(Anchored()) ==> Anchored())
      ensures NodesLoaded(NodeDocs(nodes), recs) && Tabled(h, recs)
    {
      h := map[];
      ghost var ins: seq<seq<Socket>>, outs: seq<seq<Socket>> := [], [];
      ghost var anchored := Anchored();
      NodeLoopEntry(recs, anchored);
      for i := 0 to |recs|
        invariant fresh(SocketSet - old(SocketSet))
        invariant NodeLoop(h, recs, i, ins, outs, old(SocketSet), anchored)
      {
        var n;
        n, h := LoadStep(recs, i, h, ins, outs, old(SocketSet), anchored);
        ins, outs := ins + [n.inputs], outs + [n.outputs];
      }
      NodeLoopExit(h, recs, ins, outs, old(SocketSet), anchored);
    }

    /** Part way through `LoadNodes`: `Loading` holds for the first `i`
        records, and the sockets added since the loop began hold no edge. */
    ghost predicate NodeLoop(hashmap: HashMap, recs: seq<LegacyNodeRecord>, i: int, ins: seq<seq<Socket>>,
                             outs: seq<seq<Socket>>, before: set<Socket>, anchored: bool)
      reads this, NodeSet, SocketSet, EdgeSet, nodes
    {
      var loop := 0 <= i <= |recs| && Kept(anchored) && Blank(before) &&
                  Loading(hashmap, recs[..i], ins, outs);
      loop
    }

    /** Every socket added since the arena was `before` holds no edge. */
    ghost predicate Blank(before: set<Socket>)
      reads this, SocketSet
    {
      forall s :: s in SocketSet && s !in before ==> s.edge == null
    }

    /** Sockets that keep their edge and new sockets that hold none keep
        `Blank`. */
    /** While no node changes, neither do the node records nor the table. */
    twostate lemma NodesKept(nodeRecs: seq<LegacyNodeRecord>)
      requires nodes == old(nodes) && unchanged(nodes)
      ensures NodeDocs(nodes) == old(NodeDocs(nodes)) && Table(nodeRecs) == old(Table(nodeRecs)) &&
              InputLists(nodes) == old(InputLists(nodes)) && OutputLists(nodes) == old(OutputLists(nodes))
    {
    }

    /** Sockets added without an edge, while no edge, no edge's ends and no
        earlier socket's edge change, keep the arena `Anchored`. */
    twostate lemma AnchoredKept()
      requires old(Anchored()) && Unbound(SocketSet - old(SocketSet)) && EdgeSet == old(EdgeSet)
      requires forall s :: s in old(SocketSet) ==> s.edge == old(s.edge)
      requires forall e :: e in EdgeSet ==> e.start == old(e.start) && e.end == old(e.end)
      ensures Anchored()
    {
      forall s | s in SocketSet && s.edge != null
        ensures s.edge in EdgeSet && (s.edge.start == s || s.edge.end == s)
      {
        assert s in old(SocketSet) by {
          assert s !in SocketSet - old(SocketSet);
        }
      }
    }

    twostate lemma BlankKept(before: set<Socket>)
      requires old(Blank(before)) && Unbound(SocketSet - old(SocketSet))
      requires forall s :: s in old(SocketSet) ==> s.edge == old(s.edge)
      ensures Blank(before)
    {
      forall s | s in SocketSet && s !in before
        ensures s.edge == null
      {
        if s !in old(SocketSet) {
          assert s in SocketSet - old(SocketSet);
        }
      }
    }

    /** `LoadNodes` starts on a cleared scene with an empty table. */
    lemma NodeLoopEntry(recs: seq<LegacyNodeRecord>, anchored: bool)
      requires Kept(anchored) && nodes == []
      ensures NodeLoop(map[], recs, 0, [], [], SocketSet, anchored)
    {
      assert recs[..0] == [];
    }

    /** `LoadNodes` has loaded every record. */
    lemma NodeLoopExit(hashmap: HashMap, recs: seq<LegacyNodeRecord>, ins: seq<seq<Socket>>,
                       outs: seq<seq<Socket>>, before: set<Socket>, anchored: bool)
      requires NodeLoop(hashmap, recs, |recs|, ins, outs, before, anchored)
      ensures Kept(anchored) && Unbound(SocketSet - before) && Indexes(hashmap, recs, SocketSet)
      ensures NodesLoaded(NodeDocs(nodes), recs) && Tabled(hashmap, recs)
    {
      assert recs[..|recs|] == recs;
      BuildingTabled(hashmap, recs, ins, outs);
    }

    /** Part way through `LoadNodes`: the nodes listed are those of `done`,
        in order, and the table is what they built. */
    ghost predicate Loading(hashmap: HashMap, done: seq<LegacyNodeRecord>, ins: seq<seq<Socket>>, outs: seq<seq<Socket>>)
      reads this`nodes, this`SocketSet, nodes, nodes`inputs, nodes`outputs
    {
      var loading := Indexes(hashmap, done, SocketSet) && NodesLoaded(NodeDocs(nodes), done) &&
                     Building(hashmap, done, ins, outs);
      loading
    }

    /** One pass of `LoadNodes`' loop: the next record is loaded, and
        `Loading` moves on by one record. */
    method LoadStep(recs: seq<LegacyNodeRecord>, i: int, hashmap: HashMap, ghost ins: seq<seq<Socket>>,
                    ghost outs: seq<seq<Socket>>, ghost before: set<Socket>, ghost anchored: bool) returns (n: Node, h: HashMap)
      requires i < |recs| && NodeLoop(hashmap, recs, i, ins, outs, before, anchored)
      modifies this`nodes, this`NodeSet, this`SocketSet, ids
      ensures fresh(SocketSet - old(SocketSet))
      ensures NodeLoop(h, recs, i + 1, ins + [n.inputs], outs + [n.outputs], before, anchored)
    {
      ghost var docs := NodeDocs(nodes);
      n, h := LoadNode(recs[i], hashmap, recs[..i], ins, outs);
      NodesLoadedAppend(docs, recs[..i], n.Doc(), recs[i]);
      BlankKept(before);
      NodeLoopNext(h, recs, i, ins + [n.inputs], outs + [n.outputs], before, anchored);
    }

    /** The state `LoadStep` leaves, with record `i` loaded, is the loop
        state for `i + 1` records. */
    lemma NodeLoopNext(hashmap: HashMap, recs: seq<LegacyNodeRecord>, i: int, ins: seq<seq<Socket>>,
                       outs: seq<seq<Socket>>, before: set<Socket>, anchored: bool)
      requires 0 <= i < |recs| && Valid() && (anchored ==> Anchored()) && Blank(before)
      requires Indexes(hashmap, recs[..i] + [recs[i]], SocketSet) && NodesLoaded(NodeDocs(nodes), recs[..i] + [recs[i]])
      requires Building(hashmap, recs[..i] + [recs[i]], ins, outs)
      ensures NodeLoop(hashmap, recs, i + 1, ins, outs, before, anchored)
    {
      TakeNext(recs, i);
    }

    /** `Node(self).deserialize(rec, hashmap)`: a blank node joins the scene
        and is deserialized, and the table grows by the record (`prev` are
        the records loaded before). No node that was there before changes. */
    method LoadNode(rec: LegacyNodeRecord, hashmap: HashMap, ghost prev: seq<LegacyNodeRecord>,
                    ghost ins: seq<seq<Socket>>, ghost outs: seq<seq<Socket>>) returns (n: Node, h: HashMap)
      requires Valid() && Indexes(hashmap, prev, SocketSet) && Building(hashmap, prev, ins, outs)
      modifies this`nodes, this`NodeSet, this`SocketSet, ids
      ensures Valid() && fresh(n) && nodes == old(nodes) + [n] && NodeLoaded(n.Doc(), rec)
      ensures fresh(SocketSet - old(SocketSet)) && Unbound(SocketSet - old(SocketSet))
      ensures Indexes(h, prev + [rec], SocketSet)
      ensures |n.inputs| == |rec.inputs| && |n.outputs| == |rec.outputs| && h == Entered(hashmap, n, rec, n.inputs, n.outputs)
      ensures Building(h, prev + [rec], ins + [n.inputs], outs + [n.outputs])
      ensures NodeDocs(nodes) == old(NodeDocs(nodes)) + [n.Doc()]
      ensures old(Anchored()) ==> Anchored()
    {
      ghost var docs := NodeDocs(nodes);
      n, h := LoadBlank(rec, hashmap, prev);
      forall j | 0 <= j < |prev|
        ensures nodes[j].inputs == ins[j] && nodes[j].outputs == outs[j]
      {
        assert nodes[j] == old(nodes)[j] && nodes[j] in old(nodes);
      }
      assert nodes[..|nodes| - 1] == old(nodes);
      BuildingStep(hashmap, prev, ins, outs, n, rec);
      assert NodeDocs(old(nodes)) == docs;
      NodeDocsAppend(old(nodes), n);
    }

    /** The two steps of `LoadNode`: a blank node joins the scene and is
        deserialized; the nodes before it keep their socket lists. */
    method LoadBlank(rec: LegacyNodeRecord, hashmap: HashMap, ghost prev: seq<LegacyNodeRecord>) returns (n: Node, h: HashMap)
      requires Valid() && Indexes(hashmap, prev, SocketSet)
      modifies this`nodes, this`NodeSet, this`SocketSet, ids
      ensures Valid() && fresh(n) && nodes == old(nodes) + [n] && NodeLoaded(n.Doc(), rec)
      ensures fresh(SocketSet - old(SocketSet)) && Unbound(SocketSet - old(SocketSet))
      ensures Indexes(h, prev + [rec], SocketSet)
      ensures |n.inputs| == |rec.inputs| && |n.outputs| == |rec.outputs| && h == Entered(hashmap, n, rec, n.inputs, n.outputs)
      ensures unchanged(old(nodes)) && (old(Anchored()) ==> Anchored())
    {
      n := new Node(this, "Undefined", [], []);
      h := n.Deserialize(rec, hashmap);
      EnteredIndexes(hashmap, n, rec, n.inputs, n.outputs, prev, SocketSet);
    }

    /** The edge loop of `deserialize`: it stops at the first record whose
        ends do not both name sockets. On success each new edge joins the
        two sockets the table names under its record's ends. Every socket
        ends holding the last loaded edge whose setters reached it, or the
        edge it held before (`was`), and anchoring is kept. */
    method LoadEdges(recs: seq<EdgeRecord>, hashmap: HashMap, ghost nodeRecs: seq<LegacyNodeRecord>,
                     ghost was: map<Socket, Edge?>) returns (ok: bool)
      requires Valid() && Indexes(hashmap, nodeRecs, SocketSet)
      requires forall s {:trigger Was(was, s)} :: s in SocketSet ==> s.edge == Was(was, s)
      modifies this`edges, this`EdgeSet, ids, SocketSet`edge
      ensures Valid() && nodes == old(nodes) && unchanged(nodes) && old(edges) <= edges
      ensures EdgesRead(nodeRecs, recs, ok)
      ensures ok ==> Joined(hashmap, edges, recs)
      ensures |edges| - |old(edges)| <= |recs| && (ok ==> |edges| - |old(edges)| == |recs|)
      ensures Held(hashmap, recs[..|edges| - |old(edges)|], old(edges), was)
      ensures ok ==> Held(hashmap, recs, old(edges), was)
      ensures old(Anchored()) ==> Anchored()
    {
      var k := 0;
      ghost var loaded: seq<Edge> := [];
      ghost var anchored := Anchored();
      EdgeLoopEntry(hashmap, nodeRecs, recs, was, anchored);
      while k < |recs|
        invariant nodes == old(nodes)
        invariant EdgeLoop(hashmap, nodeRecs, recs, k, loaded, old(edges), was, anchored)
      {
        var e;
        e, ok := LoadEdgeRead(hashmap, nodeRecs, recs, k, loaded, old(edges), was, anchored);
        if !ok {
          return;
        }
        loaded := loaded + [e];
        k := k + 1;
      }
      EdgeLoopExit(hashmap, nodeRecs, recs, loaded, old(edges), was, anchored);
      ok := true;
    }

    /** The edge loop of `deserialize` starts with no record read. */
    lemma EdgeLoopEntry(hashmap: HashMap, nodeRecs: seq<LegacyNodeRecord>, recs: seq<EdgeRecord>,
                        was: map<Socket, Edge?>, anchored: bool)
      requires Kept(anchored) && Indexes(hashmap, nodeRecs, SocketSet)
      requires forall s {:trigger Was(was, s)} :: s in SocketSet ==> s.edge == Was(was, s)
      ensures EdgeLoop(hashmap, nodeRecs, recs, 0, [], edges, was, anchored)
    {
      assert edges[|edges|..] == [] && recs[..0] == [] && edges + [] == edges;
    }

    /** The edge loop of `deserialize` has read every record. */
    lemma EdgeLoopExit(hashmap: HashMap, nodeRecs: seq<LegacyNodeRecord>, recs: seq<EdgeRecord>,
                       loaded: seq<Edge>, before: seq<Edge>, was: map<Socket, Edge?>, anchored: bool)
      requires EdgeLoop(hashmap, nodeRecs, recs, |recs|, loaded, before, was, anchored)
      ensures Kept(anchored) && before <= edges && |edges| - |before| == |recs|
      ensures EdgesRead(nodeRecs, recs, true) && Joined(hashmap, edges, recs)
      ensures Held(hashmap, recs[..|edges| - |before|], before, was) && Held(hashmap, recs, before, was)
    {
      assert recs[..|recs|] == recs;
      assert edges[|edges| - |recs|..] == loaded;
      JoinedAfter(hashmap, before, loaded, recs);
    }

    /** Part way through `LoadEdges`: the edges `loaded` for the first `k`
        records follow the edges listed `before`, every record read so far
        resolves, and the sockets hold what `Held` says. */
    ghost predicate EdgeLoop(hashmap: HashMap, nodeRecs: seq<LegacyNodeRecord>, recs: seq<EdgeRecord>, k: int,
                             loaded: seq<Edge>, before: seq<Edge>, was: map<Socket, Edge?>, anchored: bool)
      reads this, NodeSet, SocketSet, EdgeSet, loaded
    {
      var loop := 0 <= k <= |recs| && |loaded| == k && edges == before + loaded && Kept(anchored) &&
                  Indexes(hashmap, nodeRecs, SocketSet) &&
                  Reading(hashmap, nodeRecs, loaded, recs[..k]) && Held(hashmap, recs[..k], before, was);
      loop
    }

    /** One pass of the edge loop of `deserialize`: the edge for record `k`
        joins the scene, `ok` says whether the record resolves against the
        node records, and then the loop state moves on by one record;
        otherwise the state the raise leaves is the one `LoadEdges` reports. */
    method LoadEdgeRead(hashmap: HashMap, ghost nodeRecs: seq<LegacyNodeRecord>, recs: seq<EdgeRecord>, k: int,
                        ghost loaded: seq<Edge>, ghost before: seq<Edge>, ghost was: map<Socket, Edge?>,
                        ghost anchored: bool) returns (e: Edge, ok: bool)
      requires k < |recs| && EdgeLoop(hashmap, nodeRecs, recs, k, loaded, before, was, anchored)
      modifies this`edges, this`EdgeSet, ids, SocketSet`edge
      ensures ok == Resolves(nodeRecs, recs[k])
      ensures ok ==> EdgeLoop(hashmap, nodeRecs, recs, k + 1, loaded + [e], before, was, anchored)
      ensures !ok ==> Kept(anchored) && before <= edges && |edges| - |before| == k + 1 && !AllResolve(nodeRecs, recs)
      ensures !ok ==> Held(hashmap, recs[..|edges| - |before|], before, was)
    {
      var rec := recs[k];
      assert KindOf(hashmap, rec.start) == KindAfter(nodeRecs, rec.start);
      assert KindOf(hashmap, rec.end) == KindAfter(nodeRecs, rec.end);
      e, ok := LoadEdge(rec, hashmap);
      TakeNext(recs, k);
      if ok {
        ReadingNext(hashmap, nodeRecs, loaded, recs[..k], e, rec);
      }
      assert old(edges)[|before|..] == loaded && edges[|before|..] == loaded + [e];
      forall s | s in SocketSet
        ensures s.edge == Holder(hashmap, recs[..k + 1], loaded + [e], s, Was(was, s))
      {
        HolderNext(hashmap, recs[..k], loaded, s, Was(was, s), rec, e);
      }
      AppendAssoc(before, loaded, e);
      if !ok {
        assert !AllResolve(nodeRecs, recs) by {
          assert !Resolves(nodeRecs, recs[k]);
        }
      }
    }

    /** The edge loop of `deserialize` run against the table its node loop
        built: each new edge joins the sockets the nodes leave named under
        its record's ends. */
    method JoinEdges(recs: seq<EdgeRecord>, hashmap: HashMap, ghost nodeRecs: seq<LegacyNodeRecord>,
                     ghost was: map<Socket, Edge?>) returns (ok: bool)
      requires Valid() && Indexes(hashmap, nodeRecs, SocketSet) && Tabled(hashmap, nodeRecs)
      requires forall s {:trigger Was(was, s)} :: s in SocketSet ==> s.edge == Was(was, s)
      modifies this`edges, this`EdgeSet, ids, SocketSet`edge
      ensures Valid() && nodes == old(nodes) && unchanged(nodes) && old(edges) <= edges
      ensures NodeDocs(nodes) == old(NodeDocs(nodes)) && Table(nodeRecs) == old(Table(nodeRecs))
      ensures EdgesRead(nodeRecs, recs, ok)
      ensures ok ==> EdgesJoin(nodeRecs, recs)
      ensures |edges| - |old(edges)| <= |recs| && (ok ==> |edges| - |old(edges)| == |recs|)
      ensures Held(hashmap, recs[..|edges| - |old(edges)|], old(edges), was)
      ensures ok ==> Held(hashmap, recs, old(edges), was)
      ensures old(Anchored()) ==> Anchored()
    {
      ok := LoadEdges(recs, hashmap, nodeRecs, was);
      NodesKept(nodeRecs);
      if ok {
        assert Tabled(hashmap, nodeRecs);
        TabledJoin(hashmap, nodeRecs, recs);
      }
    }

    /** `Edge(self).deserialize(rec, hashmap)`: an edge with no ends and the
        direct type joins the scene and is deserialized; when both ends name
        sockets the edge joins those two sockets. The sockets its setters
        reach hold it, and no other socket changes. */
    method LoadEdge(rec: EdgeRecord, hashmap: HashMap) returns (e: Edge, ok: bool)
      requires Valid() && SocketsIn(hashmap, SocketSet)
      modifies this`edges, this`EdgeSet, ids, SocketSet`edge
      ensures Valid() && fresh(e) && edges == old(edges) + [e] && nodes == old(nodes)
      ensures ok == (NamesSocket(hashmap, rec.start) && NamesSocket(hashmap, rec.end))
      ensures ok ==> e.start == hashmap[rec.start].socket && e.end == hashmap[rec.end].socket
      ensures forall s :: s in SocketSet ==> s.edge == if Bound(hashmap, rec, s) then e else old(s.edge)
      ensures old(Anchored()) ==> Anchored()
      ensures ok && Keyed(hashmap) ==> e.Doc() == Some(rec)
    {
      e := new Edge(this, null, null, DIRECT);
      ok := e.Deserialize(rec, hashmap);
    }
  }

  class Node {
    const scene: Scene
    var id: int
    var title: string
    var posX: real
    var posY: real
    /** The id of the node's content object, which is serialized with the node. */
    const contentId: int
    var inputs: seq<Socket>
    var outputs: seq<Socket>

    /** `Node(scene, title, inputs, outputs)`: the node is appended to the
        scene once and gets one new socket per requested socket type (an
        absent list is the empty one). */
    constructor(scene: Scene, title: string, inputs: seq<int>, outputs: seq<int>)
      requires scene.Valid()
      modifies scene`nodes, scene`NodeSet, scene`SocketSet, scene.ids
      ensures scene.Valid() && this.scene == scene
      ensures scene.nodes == old(scene.nodes) + [this] && scene.NodeSet == old(scene.NodeSet) + {this}
      ensures this.title == title && posX == 0.0 && posY == 0.0
      ensures Laid(this.inputs, inputs, LEFT_BOTTOM) && Laid(this.outputs, outputs, RIGHT_TOP)
      ensures forall s :: s in this.inputs + this.outputs ==> fresh(s) && s.node == this && s.edge == null
      ensures scene.SocketSet == old(scene.SocketSet) + Elements(this.inputs + this.outputs)
      ensures old(scene.Anchored()) ==> scene.Anchored()
    {
      this.scene := scene;
      var nid := scene.ids.Fresh();
      var cid := scene.ids.Fresh();
      id, contentId := nid, cid;
      this.title := title;
      posX, posY := 0.0, 0.0;
      this.inputs, this.outputs := [], [];
      new;
      scene.AddNode(this);
      scene.NodeSet := scene.NodeSet + {this};
      AppendNoDup(old(scene.nodes), this);
      InitSockets(inputs, outputs);
    }

    /** `_init_sockets`: inputs get indices 0..n-1 at LEFT_BOTTOM, outputs
        indices 0..m-1 at RIGHT_TOP. */
    method InitSockets(inputs: seq<int>, outputs: seq<int>)
      requires scene.Valid() && this in scene.NodeSet && this.inputs == [] && this.outputs == []
      modifies this`inputs, this`outputs, scene`SocketSet, scene.ids
      ensures scene.Valid()
      ensures Laid(this.inputs, inputs, LEFT_BOTTOM) && Laid(this.outputs, outputs, RIGHT_TOP)
      ensures forall s :: s in this.inputs + this.outputs ==> fresh(s) && s.node == this && s.edge == null
      ensures scene.SocketSet == old(scene.SocketSet) + Elements(this.inputs + this.outputs)
    {
      InitInputs(inputs);
      InitOutputs(outputs);
      assert Elements(this.inputs + this.outputs) == Elements(this.inputs) + Elements(this.outputs);
    }

    /** The input loop of `_init_sockets`, with its counter. */
    method InitInputs(types: seq<int>)
      requires scene.Valid() && this in scene.NodeSet && inputs == []
      modifies this`inputs, scene`SocketSet, scene.ids
      ensures scene.Valid() && Laid(inputs, types, LEFT_BOTTOM)
      ensures forall s :: s in inputs ==> fresh(s) && s.node == this && s.edge == null
      ensures scene.SocketSet == old(scene.SocketSet) + Elements(inputs)
    {
      var counter := 0;
      while counter < |types|
        invariant 0 <= counter <= |types|
        invariant scene.Valid() && this in scene.NodeSet
        invariant Laid(inputs, types[..counter], LEFT_BOTTOM)
        invariant forall s :: s in inputs ==> fresh(s) && s.node == this && s.edge == null
        invariant scene.SocketSet == old(scene.SocketSet) + Elements(inputs)
      {
        var socket := NewSocket(counter, LEFT_BOTTOM, types[counter]);
        inputs := inputs + [socket];
        counter := counter + 1;
      }
    }

    /** The output loop of `_init_sockets`, with its counter. */
    method InitOutputs(types: seq<int>)
      requires scene.Valid() && this in scene.NodeSet && outputs == []
      modifies this`outputs, scene`SocketSet, scene.ids
      ensures scene.Valid() && Laid(outputs, types, RIGHT_TOP)
      ensures forall s :: s in outputs ==> fresh(s) && s.node == this && s.edge == null
      ensures scene.SocketSet == old(scene.SocketSet) + Elements(outputs)
    {
      var counter := 0;
      while counter < |types|
        invariant 0 <= counter <= |types|
        invariant scene.Valid() && this in scene.NodeSet
        invariant Laid(outputs, types[..counter], RIGHT_TOP)
        invariant forall s :: s in outputs ==> fresh(s) && s.node == this && s.edge == null
        invariant scene.SocketSet == old(scene.SocketSet) + Elements(outputs)
      {
        var socket := NewSocket(counter, RIGHT_TOP, types[counter]);
        outputs := outputs + [socket];
        counter := counter + 1;
      }
    }

    /** `Socket(node, index, position, type)`: a socket of this node with a
        fresh id and no edge, entered in the socket arena. */
    method NewSocket(index: int, position: int, socketType: int) returns (socket: Socket)
      requires scene.Valid() && this in scene.NodeSet
      modifies scene`SocketSet, scene.ids
      ensures scene.Valid() && fresh(socket) && scene.SocketSet == old(scene.SocketSet) + {socket}
      ensures socket.node == this && socket.id == old(scene.ids.next) && socket.edge == null
      ensures socket.index == index && socket.position == position && socket.socketType == socketType
    {
      var sid := scene.ids.Fresh();
      socket := new Socket(this, sid, index, position, socketType);
      scene.SocketSet := scene.SocketSet + {socket};
    }

    /** `setMode`: the node passes the mode on to its scene, and nothing
        else changes. */
    method SetMode(mode: Mode)
      modifies scene`mode
      ensures scene.mode == mode
    {
      scene.mode := mode;
    }

    /** `setPos`: the node's widget moves to the given point, which is what
        the node's position reads back. */
    method SetPos(x: real, y: real)
      modifies this`posX, this`posY
      ensures posX == x && posY == y
    {
      posX, posY := x, y;
    }

    /** `remove`: the edge of every socket that holds one is removed, then
        the node leaves the scene's list; `found` is false where the source
        raises ValueError because the node is not listed. Only edges the
        node's sockets held leave the scene, and a socket either keeps its
        edge or loses it. When every bound socket was an end of its edge,
        that stays so and no socket of the node holds an edge afterwards.
        When moreover every end of an edge held it (`Mutual`), every edge
        the node held leaves, and so does every edge a socket stopped
        holding. */
    method Remove() returns (found: bool)
      requires scene.Valid() && this in scene.NodeSet
      modifies scene`nodes, scene`edges, scene.SocketSet`edge, scene.EdgeSet`start, scene.EdgeSet`end
      ensures scene.Valid()
      ensures found == (this in old(scene.nodes)) && scene.nodes == Erase(old(scene.nodes), this) && this !in scene.nodes
      ensures forall e :: e in scene.edges ==> e in old(scene.edges)
      ensures forall e :: e in old(scene.edges) && e !in old(Held()) ==> e in scene.edges
      ensures forall s :: s in scene.SocketSet ==> s.edge == null || s.edge == old(s.edge)
      ensures old(scene.Anchored()) ==> scene.Anchored() && forall s :: s in inputs + outputs ==> s.edge == null
      ensures old(scene.Mutual()) ==> scene.Mutual() && forall e :: e in old(Held()) ==> e !in scene.edges
      ensures old(scene.Mutual()) ==> forall s :: s in scene.SocketSet && s.edge == null && old(s.edge) != null ==> old(s.edge) !in scene.edges
    {
      ReleaseSockets();
      found := scene.RemoveNode(this);
      EraseNoDup(old(scene.nodes), this);
    }

    /** The loop of `remove`: every socket of the node releases its edge. */
    method ReleaseSockets()
      requires scene.Valid() && this in scene.NodeSet
      modifies scene`edges, scene.SocketSet`edge, scene.EdgeSet`start, scene.EdgeSet`end
      ensures scene.Valid() && scene.nodes == old(scene.nodes)
      ensures forall e :: e in scene.edges ==> e in old(scene.edges)
      ensures forall e :: e in old(scene.edges) && e !in old(Held()) ==> e in scene.edges
      ensures forall s :: s in scene.SocketSet ==> s.edge == null || s.edge == old(s.edge)
      ensures old(scene.Anchored()) ==> scene.Anchored() && forall s :: s in inputs + outputs ==> s.edge == null
      ensures old(scene.Mutual()) ==> scene.Mutual() && forall e :: e in old(Held()) ==> e !in scene.edges
      ensures old(scene.Mutual()) ==> forall s :: s in scene.SocketSet && s.edge == null && old(s.edge) != null ==> old(s.edge) !in scene.edges
    {
      ghost var was := map s | s in scene.SocketSet :: s.edge;
      ghost var held := Held();
      ghost var anchored, mutual := scene.Anchored(), scene.Mutual();
      assert forall s :: s in inputs + outputs ==> s in scene.SocketSet;
      var k := 0;
      while k < |inputs + outputs|
        invariant Releasing(k, old(scene.nodes), old(scene.edges), was, held, anchored, mutual)
      {
        ReleaseNext(k, old(scene.nodes), old(scene.edges), was, held, anchored, mutual);
        k := k + 1;
      }
      ReleasingDone(old(scene.nodes), old(scene.edges), was, held, anchored, mutual);
    }

    /** Part way through the loop of `remove`: the first `k` sockets are
        released. `nodes0`, `edges0`, `was` and `held` are the node list,
        the edge list, every socket's edge and this node's edges when the
        loop began; `anchored` and `mutual` say whether the scene then was. */
    ghost predicate Releasing(k: nat, nodes0: seq<Node>, edges0: seq<Edge>, was: map<Socket, Edge?>, held: set<Edge>,
                              anchored: bool, mutual: bool)
      reads this, inputs, outputs, scene, scene.NodeSet, scene.SocketSet, scene.EdgeSet
    {
      var sockets := inputs + outputs;
      var releasing := k <= |sockets| && scene.Valid() && scene.nodes == nodes0 && (mutual ==> anchored) &&
        (forall s :: s in sockets ==> s in scene.SocketSet) &&
        (forall s :: s in scene.SocketSet ==> s in was && (s.edge == null || s.edge == was[s])) &&
        held == (set s | s in sockets && s in was && was[s] != null :: was[s]) &&
        (forall e :: e in scene.edges ==> e in edges0) &&
        (forall e :: e in edges0 && e !in held ==> e in scene.edges) &&
        (anchored ==> scene.Anchored() && forall j :: 0 <= j < k ==> sockets[j].edge == null) &&
        (mutual ==> scene.Mutual() && forall s :: s in scene.SocketSet && s.edge == null && was[s] != null ==> was[s] !in scene.edges);
      releasing
    }

    /** One pass of the loop of `remove`. */
    method ReleaseNext(k: nat, ghost nodes0: seq<Node>, ghost edges0: seq<Edge>, ghost was: map<Socket, Edge?>, ghost held: set<Edge>,
                       ghost anchored: bool, ghost mutual: bool)
      requires k < |inputs + outputs| && Releasing(k, nodes0, edges0, was, held, anchored, mutual)
      modifies scene`edges, scene.SocketSet`edge, scene.EdgeSet`start, scene.EdgeSet`end
      ensures Releasing(k + 1, nodes0, edges0, was, held, anchored, mutual)
    {
      ReleaseSocket((inputs + outputs)[k]);
    }

    /** What the loop of `remove` leaves once every socket is released. */
    lemma ReleasingDone(nodes0: seq<Node>, edges0: seq<Edge>, was: map<Socket, Edge?>, held: set<Edge>, anchored: bool, mutual: bool)
      requires Releasing(|inputs + outputs|, nodes0, edges0, was, held, anchored, mutual)
      ensures scene.Valid() && scene.nodes == nodes0
      ensures forall e :: e in scene.edges ==> e in edges0
      ensures forall e :: e in edges0 && e !in held ==> e in scene.edges
      ensures forall s :: s in scene.SocketSet ==> s in was && (s.edge == null || s.edge == was[s])
      ensures anchored ==> scene.Anchored() && forall s :: s in inputs + outputs ==> s.edge == null
      ensures mutual ==> scene.Mutual() && forall e :: e in held ==> e !in scene.edges
      ensures mutual ==> forall s :: s in scene.SocketSet && s.edge == null && was[s] != null ==> was[s] !in scene.edges
    {
    }

    /** The edges the node's sockets hold. */
    ghost function Held(): set<Edge>
      reads this, inputs, outputs
    {
      set s | s in inputs + outputs && s.edge != null :: s.edge
    }

    /** One step of the loop of `remove`: the socket's edge, if it holds
        one, is removed, and no other edge leaves. That clears the socket
        only when it is an end of the edge, which every bound socket is while
        the scene is anchored. */
    method ReleaseSocket(socket: Socket)
      requires scene.Valid() && socket in scene.SocketSet
      modifies scene`edges, scene.SocketSet`edge, scene.EdgeSet`start, scene.EdgeSet`end
      ensures scene.Valid() && scene.nodes == old(scene.nodes)
      ensures forall e :: e in scene.edges <==> e in old(scene.edges) && e != old(socket.edge)
      ensures forall s :: s in scene.SocketSet ==> s.edge == null || s.edge == old(s.edge)
      ensures old(scene.Anchored()) ==> scene.Anchored() && socket.edge == null
      ensures old(scene.Mutual()) ==> scene.Mutual()
      ensures old(scene.Mutual()) ==> forall s :: s in scene.SocketSet && s.edge == null && old(s.edge) != null ==> old(s.edge) !in scene.edges
    {
      if socket.HasEdge() {
        var e: Edge := socket.edge;
        EraseNoDup(scene.edges, e);
        e.Remove();
      }
    }

    /** `serialize`: the node's record, sockets in list order. The content
        record holds only the content's id. */
    function Doc(): LegacyNodeRecord
      reads this`id, this`title, this`posX, this`posY, this`inputs, this`outputs
    {
      LegacyNodeRecord(id, title, posX, posY, contentId, SocketDocs(inputs), SocketDocs(outputs))
    }

    /** `serialize`, with its two append loops. */
    method Serialize() returns (r: LegacyNodeRecord)
      ensures r == Doc()
    {
      var ins: seq<LegacySocketRecord> := [];
      for k := 0 to |inputs|
        invariant ins == SocketDocs(inputs[..k])
      {
        assert inputs[..k + 1][..k] == inputs[..k];
        ins := ins + [inputs[k].Doc()];
      }
      var outs: seq<LegacySocketRecord> := [];
      for k := 0 to |outputs|
        invariant outs == SocketDocs(outputs[..k])
      {
        assert outputs[..k + 1][..k] == outputs[..k];
        outs := outs + [outputs[k].Doc()];
      }
      assert inputs[..|inputs|] == inputs && outputs[..|outputs|] == outputs;
      r := LegacyNodeRecord(id, title, posX, posY, contentId, ins, outs);
    }

    /** `deserialize`: the node takes the record's id and is entered in the
        id table under it; title and position are taken over; both socket
        lists are rebuilt from the records sorted by `index + position * 10000`,
        each new socket taking its record's id and being entered in the table
        under it. The node then serializes back to its record with the socket
        records sorted; only the content id is the node's own. */
    method Deserialize(data: LegacyNodeRecord, hashmap: HashMap) returns (h: HashMap)
      requires scene.Valid() && this in scene.NodeSet
      modifies this`id, this`title, this`posX, this`posY, this`inputs, this`outputs, scene`SocketSet
      ensures scene.Valid() && NodeLoaded(Doc(), data)
      ensures scene.SocketSet == old(scene.SocketSet) + Elements(inputs) + Elements(outputs)
      ensures fresh(scene.SocketSet - old(scene.SocketSet))
      ensures |inputs| == |data.inputs| && |outputs| == |data.outputs|
      ensures h == Entered(hashmap, this, data, inputs, outputs)
      ensures Unbound(scene.SocketSet - old(scene.SocketSet))
      ensures old(scene.Anchored()) ==> scene.Anchored()
    {
      id := data.id;
      h := hashmap[data.id := NodeEntry(this)];
      title := data.title;
      SetPos(data.posX, data.posY);
      h := LoadSockets(SortBy(data.inputs, LegacySocketKey), SortBy(data.outputs, LegacySocketKey), h);
      if old(scene.Anchored()) {
        scene.AnchoredKept();
      }
    }

    /** The socket part of `deserialize`: both lists rebuilt from the
        (sorted) records. */
    method LoadSockets(ins: seq<LegacySocketRecord>, outs: seq<LegacySocketRecord>, hashmap: HashMap) returns (h: HashMap)
      requires scene.Valid() && this in scene.NodeSet
      modifies this`inputs, this`outputs, scene`SocketSet
      ensures scene.Valid() && SocketDocs(inputs) == ins && SocketDocs(outputs) == outs
      ensures scene.SocketSet == old(scene.SocketSet) + Elements(inputs) + Elements(outputs)
      ensures fresh(scene.SocketSet - old(scene.SocketSet))
      ensures h == Enter(Enter(hashmap, ins, inputs), outs, outputs)
      ensures Unbound(scene.SocketSet - old(scene.SocketSet))
    {
      h := LoadInputs(ins, hashmap);
      h := LoadOutputs(outs, h);
    }

    /** `self.inputs = []` and the input loop of `deserialize`. */
    method LoadInputs(recs: seq<LegacySocketRecord>, hashmap: HashMap) returns (h: HashMap)
      requires scene.Valid() && this in scene.NodeSet
      modifies this`inputs, scene`SocketSet
      ensures scene.Valid() && SocketDocs(inputs) == recs
      ensures scene.SocketSet == old(scene.SocketSet) + Elements(inputs)
      ensures fresh(scene.SocketSet - old(scene.SocketSet))
      ensures h == Enter(hashmap, recs, inputs)
      ensures Unbound(scene.SocketSet - old(scene.SocketSet))
    {
      inputs := [];
      h := hashmap;
      for k := 0 to |recs|
        invariant scene.Valid() && this in scene.NodeSet && |inputs| == k
        invariant SocketDocs(inputs) == recs[..k]
        invariant scene.SocketSet == old(scene.SocketSet) + Elements(inputs)
        invariant fresh(scene.SocketSet - old(scene.SocketSet))
        invariant h == Enter(hashmap, recs[..k], inputs)
        invariant Unbound(scene.SocketSet - old(scene.SocketSet))
      {
        ghost var before := inputs;
        h := LoadInput(recs[k], h);
        TakeNext(recs, k);
        assert inputs[..k] == before;
        ElementsAppend(before, inputs[k]);
      }
      assert recs[..|recs|] == recs;
    }

    /** `self.outputs = []` and the output loop of `deserialize`. */
    method LoadOutputs(recs: seq<LegacySocketRecord>, hashmap: HashMap) returns (h: HashMap)
      requires scene.Valid() && this in scene.NodeSet
      modifies this`outputs, scene`SocketSet
      ensures scene.Valid() && SocketDocs(outputs) == recs
      ensures scene.SocketSet == old(scene.SocketSet) + Elements(outputs)
      ensures fresh(scene.SocketSet - old(scene.SocketSet))
      ensures h == Enter(hashmap, recs, outputs)
      ensures Unbound(scene.SocketSet - old(scene.SocketSet))
    {
      outputs := [];
      h := hashmap;
      for k := 0 to |recs|
        invariant scene.Valid() && this in scene.NodeSet && |outputs| == k
        invariant SocketDocs(outputs) == recs[..k]
        invariant scene.SocketSet == old(scene.SocketSet) + Elements(outputs)
        invariant fresh(scene.SocketSet - old(scene.SocketSet))
        invariant h == Enter(hashmap, recs[..k], outputs)
        invariant Unbound(scene.SocketSet - old(scene.SocketSet))
      {
        ghost var before := outputs;
        h := LoadOutput(recs[k], h);
        TakeNext(recs, k);
        assert outputs[..k] == before;
        ElementsAppend(before, outputs[k]);
      }
      assert recs[..|recs|] == recs;
    }

    /** One step of the input loop of `deserialize`: a new socket made from
        the record, entered in the table under the record's id and appended
        to the inputs. */
    method LoadInput(rec: LegacySocketRecord, hashmap: HashMap) returns (h: HashMap)
      requires scene.Valid() && this in scene.NodeSet
      modifies this`inputs, scene`SocketSet
      ensures scene.Valid() && |inputs| == |old(inputs)| + 1 && inputs == old(inputs) + [inputs[|old(inputs)|]]
      ensures SocketDocs(inputs) == old(SocketDocs(inputs)) + [rec]
      ensures scene.SocketSet == old(scene.SocketSet) + {inputs[|old(inputs)|]} && fresh(inputs[|old(inputs)|])
      ensures h == hashmap[rec.id := SocketEntry(inputs[|old(inputs)|])]
      ensures Unbound(scene.SocketSet - old(scene.SocketSet))
    {
      var socket := new Socket.Deserialized(this, rec);
      h := hashmap[rec.id := SocketEntry(socket)];
      AdoptInput(socket);
      SocketDocsAppend(old(inputs), socket);
    }

    /** One step of the output loop of `deserialize`. */
    method LoadOutput(rec: LegacySocketRecord, hashmap: HashMap) returns (h: HashMap)
      requires scene.Valid() && this in scene.NodeSet
      modifies this`outputs, scene`SocketSet
      ensures scene.Valid() && |outputs| == |old(outputs)| + 1 && outputs == old(outputs) + [outputs[|old(outputs)|]]
      ensures SocketDocs(outputs) == old(SocketDocs(outputs)) + [rec]
      ensures scene.SocketSet == old(scene.SocketSet) + {outputs[|old(outputs)|]} && fresh(outputs[|old(outputs)|])
      ensures h == hashmap[rec.id := SocketEntry(outputs[|old(outputs)|])]
      ensures Unbound(scene.SocketSet - old(scene.SocketSet))
    {
      var socket := new Socket.Deserialized(this, rec);
      h := hashmap[rec.id := SocketEntry(socket)];
      AdoptOutput(socket);
      SocketDocsAppend(old(outputs), socket);
    }

    /** Enters a new socket of this node, with no edge, into the socket
        arena and appends it to the inputs. */
    method AdoptInput(socket: Socket)
      requires scene.Valid() && this in scene.NodeSet
      requires socket !in scene.SocketSet && socket.node == this && socket.edge == null
      modifies this`inputs, scene`SocketSet
      ensures scene.Valid() && inputs == old(inputs) + [socket]
      ensures scene.SocketSet == old(scene.SocketSet) + {socket}
    {
      scene.SocketSet := scene.SocketSet + {socket};
      inputs := inputs + [socket];
    }

    /** Enters a new socket of this node, with no edge, into the socket
        arena and appends it to the outputs. */
    method AdoptOutput(socket: Socket)
      requires scene.Valid() && this in scene.NodeSet
      requires socket !in scene.SocketSet && socket.node == this && socket.edge == null
      modifies this`outputs, scene`SocketSet
      ensures scene.Valid() && outputs == old(outputs) + [socket]
      ensures scene.SocketSet == old(scene.SocketSet) + {socket}
    {
      scene.SocketSet := scene.SocketSet + {socket};
      outputs := outputs + [socket];
    }
  }

  class Socket {
    const node: Node
    const id: int
    const index: int
    const position: int
    const socketType: int
    /** The one edge bound to the socket, if any. */
    var edge: Edge?

    /** A new socket has no edge. */
    constructor(node: Node, id: int, index: int, position: int, socketType: int)
      ensures this.node == node && this.id == id && this.index == index && this.position == position
      ensures this.socketType == socketType && edge == null
    {
      this.node := node;
      this.id := id;
      this.index := index;
      this.position := position;
      this.socketType := socketType;
      edge := null;
    }

    /** `Socket(node, index, position, type)` immediately followed by
        `deserialize(data, hashmap)`, the only way the core deserializes a
        socket: index, position and type come from the record, and so does
        the id, which replaces the fresh one. The socket serializes back to
        its record. */
    constructor Deserialized(node: Node, data: LegacySocketRecord)
      ensures this.node == node && edge == null && Doc() == data
    {
      this.node := node;
      this.id := data.id;
      this.index := data.index;
      this.position := data.position;
      this.socketType := data.socketType;
      edge := null;
    }

    /** `bindEdge(e)`; `bindEdge()` is `BindEdge(null)`, which clears the binding. */
    method BindEdge(e: Edge?)
      modifies this`edge
      ensures edge == e
    {
      edge := e;
    }

    predicate HasEdge()
      reads this`edge
    {
      edge != null
    }

    /** `serialize`: the socket's record. */
    function Doc(): LegacySocketRecord
    {
      LegacySocketRecord(id, index, position, socketType)
    }

    /** `getPosition`: the node's `getSocketPosition` at the socket's own
        index and position. */
    function GetPosition(): (p: Point)
    {
      SocketPosition(DEFAULT_GEOMETRY, index, position)
    }

    /** Where the socket sits in the scene: its place on the node moved by
        the node's position. */
    function ScenePosition(): (p: Point)
      reads node
    {
      Translate(GetPosition(), node.posX, node.posY)
    }
  }

  class Edge {
    const scene: Scene
    var id: int
    var start: Socket?
    var end: Socket?
    var edgeType: int

    /** `Edge(scene, start, end, type)`: the edge is appended to the scene's
        edges and each given end is pointed at it. node_editor/core/edge.py
        demands a start socket and binds the ends before appending; the
        resulting state is the same. Creating an edge keeps every bound
        socket an end of its edge. */
    constructor(scene: Scene, start: Socket?, end: Socket?, edgeType: int)
      requires scene.Valid()
      requires start != null ==> start in scene.SocketSet
      requires end != null ==> end in scene.SocketSet
      modifies scene`edges, scene`EdgeSet, scene.ids, {start, end}`edge
      ensures scene.Valid() && this.scene == scene && id == old(scene.ids.next)
      ensures this.start == start && this.end == end && this.edgeType == edgeType
      ensures scene.edges == old(scene.edges) + [this] && scene.EdgeSet == old(scene.EdgeSet) + {this}
      ensures forall s :: s in scene.SocketSet ==> s.edge == if s == start || s == end then this else old(s.edge)
      ensures old(scene.Anchored()) ==> scene.Anchored()
    {
      this.scene := scene;
      var eid := scene.ids.Fresh();
      id := eid;
      this.start, this.end := null, null;
      this.edgeType := edgeType;
      new;
      Register();
      SetStart(start);
      SetEnd(end);
    }

    /** `scene.addEdge(self)` for a new edge with no ends yet, which also
        enters it in the edge arena. No socket holds the new edge. */
    method Register()
      requires scene.Valid() && this !in scene.EdgeSet && start == null && end == null
      requires forall s :: s in scene.SocketSet ==> s.edge != this
      modifies scene`edges, scene`EdgeSet
      ensures scene.Valid()
      ensures scene.edges == old(scene.edges) + [this] && scene.EdgeSet == old(scene.EdgeSet) + {this}
      ensures old(scene.Anchored()) ==> scene.Anchored()
    {
      scene.AddEdge(this);
      AppendNoDup(old(scene.edges), this);
      scene.EdgeSet := scene.EdgeSet + {this};
    }

    /** Assigning `start_socket`: the new socket is pointed at the edge, and
        no other socket changes, so the socket the edge leaves still holds
        it. That breaks anchoring exactly when the old start is left holding
        the edge without being one of its ends. */
    method SetStart(v: Socket?)
      requires scene.Valid() && this in scene.EdgeSet
      requires v != null ==> v in scene.SocketSet
      modifies this`start, {v}`edge
      ensures scene.Valid() && start == v
      ensures forall s :: s in scene.SocketSet ==> s.edge == if s == v then this else old(s.edge)
      ensures old(scene.Anchored()) ==>
                (scene.Anchored() <==> !(old(start) != null && old(start) != v && old(start) != end && old(start.edge) == this))
    {
      start := v;
      if v != null {
        v.edge := this;
      }
    }

    /** Assigning `end_socket`, symmetrically. */
    method SetEnd(v: Socket?)
      requires scene.Valid() && this in scene.EdgeSet
      requires v != null ==> v in scene.SocketSet
      modifies this`end, {v}`edge
      ensures scene.Valid() && end == v
      ensures forall s :: s in scene.SocketSet ==> s.edge == if s == v then this else old(s.edge)
      ensures old(scene.Anchored()) ==>
                (scene.Anchored() <==> !(old(end) != null && old(end) != v && old(end) != start && old(end.edge) == this))
    {
      end := v;
      if v != null {
        v.edge := this;
      }
    }

    /** `edge.start_socket = v` on node_editor/core/edge.py's edge, a plain
        attribute without the setter: no socket changes. Anchoring survives
        when the edge had no start or already started at `v`. */
    method AssignStart(v: Socket?)
      requires scene.Valid() && this in scene.EdgeSet
      requires v != null ==> v in scene.SocketSet
      modifies this`start
      ensures scene.Valid() && start == v
      ensures old(scene.Anchored()) && (old(start) == null || old(start) == v) ==> scene.Anchored()
    {
      start := v;
    }

    /** `edge.end_socket = v` as a plain attribute, symmetrically. */
    method AssignEnd(v: Socket?)
      requires scene.Valid() && this in scene.EdgeSet
      requires v != null ==> v in scene.SocketSet
      modifies this`end
      ensures scene.Valid() && end == v
      ensures old(scene.Anchored()) && (old(end) == null || old(end) == v) ==> scene.Anchored()
    {
      end := v;
    }

    /** `unbindAll`: both current ends lose their edge, even one that holds
        another edge, then both ends are unset. Anchoring is kept. */
    method UnbindAll()
      requires scene.Valid() && this in scene.EdgeSet
      modifies this`start, this`end, {start, end}`edge
      ensures scene.Valid() && start == null && end == null
      ensures forall s :: s in scene.SocketSet ==> s.edge == if s == old(start) || s == old(end) then null else old(s.edge)
      ensures old(scene.Anchored()) ==> scene.Anchored()
      ensures old(scene.Mutual()) ==> scene.Mutual()
      ensures old(scene.Mutual()) ==> forall s :: s in scene.SocketSet && s.edge == null && old(s.edge) != null ==> old(s.edge) == this
    {
      if start != null {
        start.edge := null;
      }
      if end != null {
        end.edge := null;
      }
      start, end := null, null;
    }

    /** `remove`: unbinds the edge, then drops it from the scene's list; the
        ValueError of an edge that is not listed is swallowed. A second call
        finds nothing left to change. */
    method Remove()
      requires scene.Valid() && this in scene.EdgeSet
      modifies this`start, this`end, {start, end}`edge, scene`edges
      ensures scene.Valid() && start == null && end == null
      ensures forall s :: s in scene.SocketSet ==> s.edge == if s == old(start) || s == old(end) then null else old(s.edge)
      ensures scene.edges == Erase(old(scene.edges), this) && this !in scene.edges
      ensures this !in old(scene.edges) ==> scene.edges == old(scene.edges)
      ensures old(scene.Anchored()) ==> scene.Anchored()
      ensures old(scene.Mutual()) ==> scene.Mutual()
      ensures old(scene.Mutual()) ==> forall s :: s in scene.SocketSet && s.edge == null && old(s.edge) != null ==> old(s.edge) !in scene.edges
    {
      UnbindAll();
      var found := scene.RemoveEdge(this);
      EraseNoDup(old(scene.edges), this);
    }

    /** `serialize`: the record names the two ends by their ids. Reading the
        id of a missing end fails, so an edge with a missing end has no record. */
    function Doc(): (r: Option<EdgeRecord>)
      reads this`id, this`start, this`end, this`edgeType
      ensures r.Some? <==> start != null && end != null
      ensures r.Some? ==> r.value.id == id && r.value.start == start.id && r.value.end == end.id && r.value.edgeType == edgeType
    {
      if start != null && end != null then Some(EdgeRecord(id, start.id, end.id, edgeType)) else None
    }

    /** `updatePositions`: the source is the start socket's place in the
        scene, the destination the end socket's, or the source again while
        the edge dangles. `None` means the call does not set that point
        (node_editor/core/edge.py requires a start). */
    function Positions(): (r: (Option<Point>, Option<Point>))
      reads this`start, this`end
      reads if start != null then {start.node} else {}, if end != null then {end.node} else {}
      ensures r.0.Some? <==> start != null
      ensures start != null ==> r.0.value == start.ScenePosition()
      ensures end != null ==> r.1 == Some(end.ScenePosition())
      ensures end == null ==> r.1 == r.0
    {
      var source := if start != null then Some(start.ScenePosition()) else None;
      (source, if end != null then Some(end.ScenePosition()) else source)
    }

    /** `deserialize`: the id comes from the record; the start, then the
        end, is looked up in the table and assigned through its setter, then
        the type is set. A lookup that does not find a socket stops the rest
        (`ok` false), after the start's setter when only the end fails. The
        sockets the setters reach hold the edge and no other socket
        changes. With a table whose sockets carry the ids they are entered
        under, a successful edge serializes back to its record. */
    method Deserialize(data: EdgeRecord, hashmap: HashMap) returns (ok: bool)
      requires scene.Valid() && this in scene.EdgeSet && SocketsIn(hashmap, scene.SocketSet)
      modifies this`id, this`start, this`end, this`edgeType, scene.SocketSet`edge
      ensures scene.Valid() && id == data.id
      ensures ok == (NamesSocket(hashmap, data.start) && NamesSocket(hashmap, data.end))
      ensures ok ==> start == hashmap[data.start].socket && end == hashmap[data.end].socket && edgeType == data.edgeType
      ensures ok ==> start.edge == this && end.edge == this
      ensures !NamesSocket(hashmap, data.start) ==> start == old(start) && end == old(end)
      ensures NamesSocket(hashmap, data.start) && !ok ==> start == hashmap[data.start].socket && start.edge == this && end == old(end)
      ensures !ok ==> edgeType == old(edgeType)
      ensures forall s :: s in scene.SocketSet ==> s.edge == if Bound(hashmap, data, s) then this else old(s.edge)
      ensures old(scene.Anchored()) && old(start) == null && old(end) == null ==> scene.Anchored()
      ensures ok && Keyed(hashmap) ==> Doc() == Some(data)
    {
      id := data.id;
      ok := NamesSocket(hashmap, data.start);
      if ok {
        SetStart(hashmap[data.start].socket);
        ok := NamesSocket(hashmap, data.end);
        if ok {
          SetEnd(hashmap[data.end].socket);
          edgeType := data.edgeType;
        }
      }
    }
  }
}
