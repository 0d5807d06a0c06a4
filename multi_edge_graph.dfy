/** The multi-edge graph model of src/node_editor/core/components.py: a scene
    owns lists of nodes and edges, every socket keeps the list of edges bound
    to it, and moving an edge's endpoint rebinds it on both sockets.

    The scene also carries three ghost arenas, `NodeSet`, `SocketSet` and
    `EdgeSet`: every node, socket and edge ever created for it. They only
    grow, so frames can name them, and `Valid` states over them that each
    socket lists each edge exactly once per end of the edge that is that
    socket. */
module MultiEdgeGraph {

  import opened Wrappers
  import opened Kinds
  import opened Lists
  import opened Layout
  import opened Records
  import opened Identity

  /** A value of the id → object table that deserialization fills. */
  datatype Entry = NodeEntry(node: Node) | SocketEntry(socket: Socket)

  type HashMap = map<int, Entry>

  /** The id names a socket in the table. */
  predicate NamesSocket(hashmap: HashMap, k: int)
  {
    k in hashmap && hashmap[k].SocketEntry?
  }

  /** Every socket the table names is in `sockets`. */
  ghost predicate SocketsIn(hashmap: HashMap, sockets: set<Socket>)
  {
    forall k :: k in hashmap && hashmap[k].SocketEntry? ==> hashmap[k].socket in sockets
  }

  /** Every socket in the table carries the id it is entered under. */
  predicate Keyed(hashmap: HashMap)
  {
    forall k :: k in hashmap && hashmap[k].SocketEntry? ==> hashmap[k].socket.id == k
  }

  /** The ids of a list of socket records. */
  function Ids(recs: seq<SocketRecord>): set<int>
  {
    set r | r in recs :: r.id
  }

  /** The table after `hashmap[recs[k].id] = ss[k]` for each k in order. */
  function Enter(hashmap: HashMap, recs: seq<SocketRecord>, ss: seq<Socket>): HashMap
    requires |recs| == |ss|
  {
    if recs == [] then hashmap
    else Enter(hashmap, recs[..|recs| - 1], ss[..|ss| - 1])[recs[|recs| - 1].id := SocketEntry(ss[|ss| - 1])]
  }

  /** Entering records adds exactly their ids; each of them then names a
      socket (the one entered last under it) and every other key keeps its entry. */
  lemma {:induction false} EnterEntries(hashmap: HashMap, recs: seq<SocketRecord>, ss: seq<Socket>)
    requires |recs| == |ss|
    ensures Enter(hashmap, recs, ss).Keys == hashmap.Keys + Ids(recs)
    ensures forall k :: k in Ids(recs) ==> NamesSocket(Enter(hashmap, recs, ss), k)
    ensures forall k :: k in hashmap && k !in Ids(recs) ==> Enter(hashmap, recs, ss)[k] == hashmap[k]
  {
    if recs != [] {
      var n := |recs| - 1;
      EnterEntries(hashmap, recs[..n], ss[..n]);
      assert recs == recs[..n] + [recs[n]];
      assert Ids(recs) == Ids(recs[..n]) + {recs[n].id};
    }
  }

  /** The socket entered last under `recs[j].id` is `ss[j]`. */
  lemma {:induction false} EnterLast(hashmap: HashMap, recs: seq<SocketRecord>, ss: seq<Socket>, j: nat)
    requires |recs| == |ss| && j < |recs|
    requires forall i :: j < i < |recs| ==> recs[i].id != recs[j].id
    ensures recs[j].id in Enter(hashmap, recs, ss) && Enter(hashmap, recs, ss)[recs[j].id] == SocketEntry(ss[j])
  {
    var n := |recs| - 1;
    if j < n {
      EnterLast(hashmap, recs[..n], ss[..n], j);
    }
  }

  /** Entering sockets of a set keeps every named socket in that set. */
  lemma {:induction false} EnterSocketsIn(hashmap: HashMap, recs: seq<SocketRecord>, ss: seq<Socket>, sockets: set<Socket>)
    requires |recs| == |ss| && SocketsIn(hashmap, sockets)
    requires forall k :: 0 <= k < |ss| ==> ss[k] in sockets
    ensures SocketsIn(Enter(hashmap, recs, ss), sockets)
  {
    if recs != [] {
      var n := |recs| - 1;
      EnterSocketsIn(hashmap, recs[..n], ss[..n], sockets);
    }
  }

  /** The records of a list of sockets, in order. */
  function SocketDocs(ss: seq<Socket>): (r: seq<SocketRecord>)
    ensures |r| == |ss|
  {
    if ss == [] then [] else SocketDocs(ss[..|ss| - 1]) + [ss[|ss| - 1].Doc()]
  }

  lemma SocketDocsAppend(ss: seq<Socket>, s: Socket)
    ensures SocketDocs(ss + [s]) == SocketDocs(ss) + [s.Doc()]
  {
    assert (ss + [s])[..|ss|] == ss;
  }

  /** `docs` are the records the sockets deserialized from `recs` serialize
      to: each is its record, except that the id is the socket's own fresh
      one unless `restore`. */
  predicate Restamped(docs: seq<SocketRecord>, recs: seq<SocketRecord>, restore: bool)
  {
    var restamped := |docs| == |recs| &&
                     forall k :: 0 <= k < |docs| ==> docs[k] == recs[k].(id := if restore then recs[k].id else docs[k].id);
    restamped
  }

  lemma RestampedAppend(docs: seq<SocketRecord>, recs: seq<SocketRecord>, restore: bool, r: SocketRecord, id: int)
    requires Restamped(docs, recs, restore)
    ensures Restamped(docs + [r.(id := if restore then r.id else id)], recs + [r], restore)
  {
  }

  /** With `restore` the records come back unchanged. */
  lemma RestampedRestore(docs: seq<SocketRecord>, recs: seq<SocketRecord>)
    requires Restamped(docs, recs, true)
    ensures docs == recs
  {
  }

  /** `doc` is what a node deserialized from `rec` serializes to: title and
      position taken over, the id too with `restore`, and the socket records
      sorted by their key and restamped. */
  predicate NodeLoaded(doc: NodeRecord, rec: NodeRecord, restore: bool)
  {
    var loaded := (restore ==> doc.id == rec.id) && doc.title == rec.title && doc.posX == rec.posX && doc.posY == rec.posY &&
                  Restamped(doc.inputs, SortBy(rec.inputs, SocketKey), restore) &&
                  Restamped(doc.outputs, SortBy(rec.outputs, SocketKey), restore);
    loaded
  }

  /** With `restore` a node comes back as its record, up to the content
      record and the order of its sockets, which are sorted by their key. */
  lemma NodeLoadedRestore(doc: NodeRecord, rec: NodeRecord)
    requires NodeLoaded(doc, rec, true)
    ensures doc == rec.(contentId := doc.contentId, inputs := SortBy(rec.inputs, SocketKey),
                        outputs := SortBy(rec.outputs, SocketKey))
  {
    RestampedRestore(doc.inputs, SortBy(rec.inputs, SocketKey));
    RestampedRestore(doc.outputs, SortBy(rec.outputs, SocketKey));
  }

  /** Each of `docs` is what the node deserialized from the record at the
      same position serializes to. */
  predicate NodesLoaded(docs: seq<NodeRecord>, recs: seq<NodeRecord>, restore: bool)
  {
    var loaded := |docs| == |recs| && forall i :: 0 <= i < |recs| ==> NodeLoaded(docs[i], recs[i], restore);
    loaded
  }

  lemma NodesLoadedAppend(docs: seq<NodeRecord>, recs: seq<NodeRecord>, restore: bool, d: NodeRecord, r: NodeRecord)
    requires NodesLoaded(docs, recs, restore) && NodeLoaded(d, r, restore)
    ensures NodesLoaded(docs + [d], recs + [r], restore)
  {
  }

  /** What the table holds under a key, up to the object itself. */
  function KindOf(hashmap: HashMap, k: int): (r: EntryKind)
    ensures r == SocketKind <==> NamesSocket(hashmap, k)
  {
    if k !in hashmap then NoEntry else if hashmap[k].NodeEntry? then NodeKind else SocketKind
  }

  /** What the table holds under `k` once the nodes of `recs` have been
      deserialized into an empty table, in order. Each node is entered under
      its id and then each of its sockets under theirs, so a later entry
      under the same id replaces an earlier one. */
  function KindAfter(recs: seq<NodeRecord>, k: int): EntryKind
  {
    if recs == [] then NoEntry
    else
      var last := recs[|recs| - 1];
      if k in Ids(last.inputs) || k in Ids(last.outputs) then SocketKind
      else if k == last.id then NodeKind
      else KindAfter(recs[..|recs| - 1], k)
  }

  lemma KindAfterNext(recs: seq<NodeRecord>, i: nat)
    requires i < |recs|
    ensures forall k :: KindAfter(recs[..i + 1], k) ==
              if k in Ids(recs[i].inputs) || k in Ids(recs[i].outputs) then SocketKind
              else if k == recs[i].id then NodeKind
              else KindAfter(recs[..i], k)
  {
    assert recs[..i + 1][..i] == recs[..i];
  }

  /** Both ends of the edge record name a socket once the node records are
      deserialized. */
  predicate Resolves(recs: seq<NodeRecord>, e: EdgeRecord)
  {
    KindAfter(recs, e.start) == SocketKind && KindAfter(recs, e.end) == SocketKind
  }

  /** Every edge record resolves against the node records. */
  predicate AllResolve(recs: seq<NodeRecord>, edges: seq<EdgeRecord>)
  {
    forall j :: 0 <= j < |edges| ==> Resolves(recs, edges[j])
  }

  lemma AllResolveNext(recs: seq<NodeRecord>, edges: seq<EdgeRecord>, k: nat)
    requires k < |edges|
    ensures AllResolve(recs, edges[..k + 1]) == (AllResolve(recs, edges[..k]) && Resolves(recs, edges[k]))
  {
    assert edges[..k + 1][k] == edges[k];
  }

  /** When no node record carries the id `k`, it names a socket exactly when
      some node record lists a socket with that id. */
  lemma {:induction false} KindAfterSocket(recs: seq<NodeRecord>, k: int)
    requires forall i :: 0 <= i < |recs| ==> recs[i].id != k
    ensures KindAfter(recs, k) != NodeKind
    ensures KindAfter(recs, k) == SocketKind <==>
              exists i :: 0 <= i < |recs| && (k in Ids(recs[i].inputs) || k in Ids(recs[i].outputs))
  {
    if recs != [] {
      var n := |recs| - 1;
      KindAfterSocket(recs[..n], k);
      if exists i :: 0 <= i < n && (k in Ids(recs[..n][i].inputs) || k in Ids(recs[..n][i].outputs)) {
        var i :| 0 <= i < n && (k in Ids(recs[..n][i].inputs) || k in Ids(recs[..n][i].outputs));
        assert recs[..n][i] == recs[i];
      }
      if exists i :: 0 <= i < |recs| && (k in Ids(recs[i].inputs) || k in Ids(recs[i].outputs)) {
        var i :| 0 <= i < |recs| && (k in Ids(recs[i].inputs) || k in Ids(recs[i].outputs));
        if i < n {
          assert recs[..n][i] == recs[i];
        }
      }
    }
  }

  /** Sorting socket records keeps their ids. */
  lemma IdsSorted(recs: seq<SocketRecord>)
    ensures Ids(SortBy(recs, SocketKey)) == Ids(recs)
  {
    var sorted := SortBy(recs, SocketKey);
    SortByPermutes(recs, SocketKey);
    forall r ensures r in sorted <==> r in recs {
      assert r in sorted <==> r in multiset(sorted);
      assert r in recs <==> r in multiset(recs);
    }
  }

  /** What a node's `deserialize` leaves in the table: its sockets' ids name
      sockets, its own id names the node unless a socket took it, and every
      other key keeps its entry. */
  lemma NodeEntered(hashmap: HashMap, n: Node, nid: int, ins: seq<SocketRecord>, inputs: seq<Socket>,
                    outs: seq<SocketRecord>, outputs: seq<Socket>)
    requires |ins| == |inputs| && |outs| == |outputs|
    ensures forall k :: KindOf(Enter(Enter(hashmap[nid := NodeEntry(n)], ins, inputs), outs, outputs), k) ==
              if k in Ids(ins) || k in Ids(outs) then SocketKind
              else if k == nid then NodeKind
              else KindOf(hashmap, k)
  {
    var h0 := hashmap[nid := NodeEntry(n)];
    EnterEntries(h0, ins, inputs);
    EnterEntries(Enter(h0, ins, inputs), outs, outputs);
  }

  /** Entering sockets under the ids their records carry keeps a table keyed. */
  lemma {:induction false} EnterKeyed(hashmap: HashMap, recs: seq<SocketRecord>, ss: seq<Socket>)
    requires |recs| == |ss| && Keyed(hashmap) && SocketDocs(ss) == recs
    ensures Keyed(Enter(hashmap, recs, ss))
  {
    if recs != [] {
      var n := |recs| - 1;
      assert SocketDocs(ss[..n]) == recs[..n];
      EnterKeyed(hashmap, recs[..n], ss[..n]);
    }
  }

  /** The table after a node's `deserialize`: the node under its record's
      id, then its inputs and then its outputs under the ids of the sorted
      socket records they were made from. */
  function Entered(hashmap: HashMap, n: Node, rec: NodeRecord, inputs: seq<Socket>, outputs: seq<Socket>): HashMap
    requires |inputs| == |rec.inputs| && |outputs| == |rec.outputs|
  {
    Enter(Enter(hashmap[rec.id := NodeEntry(n)], SortBy(rec.inputs, SocketKey), inputs),
          SortBy(rec.outputs, SocketKey), outputs)
  }

  /** A node's `deserialize` makes its sockets' ids name sockets and its own
      id name the node unless a socket took it; every other key keeps its
      entry. */
  lemma EnteredKinds(hashmap: HashMap, n: Node, rec: NodeRecord, inputs: seq<Socket>, outputs: seq<Socket>)
    requires |inputs| == |rec.inputs| && |outputs| == |rec.outputs|
    ensures forall k :: KindOf(Entered(hashmap, n, rec, inputs, outputs), k) ==
              if k in Ids(rec.inputs) || k in Ids(rec.outputs) then SocketKind
              else if k == rec.id then NodeKind
              else KindOf(hashmap, k)
  {
    NodeEntered(hashmap, n, rec.id, SortBy(rec.inputs, SocketKey), inputs, SortBy(rec.outputs, SocketKey), outputs);
    IdsSorted(rec.inputs);
    IdsSorted(rec.outputs);
  }

  /** The sockets a node's `deserialize` enters are the node's own. */
  lemma EnteredSocketsIn(hashmap: HashMap, n: Node, rec: NodeRecord, inputs: seq<Socket>, outputs: seq<Socket>, sockets: set<Socket>)
    requires |inputs| == |rec.inputs| && |outputs| == |rec.outputs|
    requires SocketsIn(hashmap, sockets) && Elements(inputs + outputs) <= sockets
    ensures SocketsIn(Entered(hashmap, n, rec, inputs, outputs), sockets)
  {
    var h0 := hashmap[rec.id := NodeEntry(n)];
    assert forall j :: 0 <= j < |inputs| ==> inputs[j] in Elements(inputs + outputs);
    assert forall j :: 0 <= j < |outputs| ==> outputs[j] in Elements(inputs + outputs);
    EnterSocketsIn(h0, SortBy(rec.inputs, SocketKey), inputs, sockets);
    EnterSocketsIn(Enter(h0, SortBy(rec.inputs, SocketKey), inputs), SortBy(rec.outputs, SocketKey), outputs, sockets);
  }

  /** Sockets that kept their records' ids keep the table keyed. */
  lemma EnteredKeyed(hashmap: HashMap, n: Node, rec: NodeRecord, inputs: seq<Socket>, outputs: seq<Socket>)
    requires |inputs| == |rec.inputs| && |outputs| == |rec.outputs| && Keyed(hashmap)
    requires Restamped(SocketDocs(inputs), SortBy(rec.inputs, SocketKey), true)
    requires Restamped(SocketDocs(outputs), SortBy(rec.outputs, SocketKey), true)
    ensures Keyed(Entered(hashmap, n, rec, inputs, outputs))
  {
    var h0 := hashmap[rec.id := NodeEntry(n)];
    RestampedRestore(SocketDocs(inputs), SortBy(rec.inputs, SocketKey));
    RestampedRestore(SocketDocs(outputs), SortBy(rec.outputs, SocketKey));
    EnterKeyed(h0, SortBy(rec.inputs, SocketKey), inputs);
    EnterKeyed(Enter(h0, SortBy(rec.inputs, SocketKey), inputs), SortBy(rec.outputs, SocketKey), outputs);
  }

  /** `hashmap` is the table the node loop of `deserialize` has built from
      `recs`: it names sockets of `sockets` only, with `restore` each under
      its own id, and each key holds what the last record using it entered. */
  ghost predicate Indexes(hashmap: HashMap, recs: seq<NodeRecord>, restore: bool, sockets: set<Socket>)
  {
    var indexes := SocketsIn(hashmap, sockets) && (restore ==> Keyed(hashmap)) &&
                   forall k :: KindOf(hashmap, k) == KindAfter(recs, k);
    indexes
  }

  /** One more node's `deserialize` extends the table by its record. */
  lemma EnteredIndexes(hashmap: HashMap, n: Node, rec: NodeRecord, inputs: seq<Socket>, outputs: seq<Socket>,
                       prev: seq<NodeRecord>, restore: bool, sockets: set<Socket>)
    requires Indexes(hashmap, prev, restore, sockets) && Elements(inputs + outputs) <= sockets
    requires Restamped(SocketDocs(inputs), SortBy(rec.inputs, SocketKey), restore)
    requires Restamped(SocketDocs(outputs), SortBy(rec.outputs, SocketKey), restore)
    ensures |inputs| == |rec.inputs| && |outputs| == |rec.outputs|
    ensures Indexes(Entered(hashmap, n, rec, inputs, outputs), prev + [rec], restore, sockets)
  {
    var h := Entered(hashmap, n, rec, inputs, outputs);
    EnteredKinds(hashmap, n, rec, inputs, outputs);
    EnteredSocketsIn(hashmap, n, rec, inputs, outputs, sockets);
    if restore {
      EnteredKeyed(hashmap, n, rec, inputs, outputs);
    }
    forall k ensures KindOf(h, k) == KindAfter(prev + [rec], k) {
      assert (prev + [rec])[..|prev|] == prev;
    }
  }

  /** Each of `ins` and `outs` holds one socket list per record, as long
      as that record's input and output lists. */
  predicate Shaped(recs: seq<NodeRecord>, ins: seq<seq<Socket>>, outs: seq<seq<Socket>>)
  {
    |ins| == |recs| && |outs| == |recs| &&
    forall i :: 0 <= i < |recs| ==> |ins[i]| == |recs[i].inputs| && |outs[i]| == |recs[i].outputs|
  }

  /** The table the node loop of `deserialize` builds on `hashmap` when the
      node deserialized from `recs[i]` is `ns[i]` with the input sockets
      `ins[i]` and the output sockets `outs[i]`. */
  function Built(hashmap: HashMap, ns: seq<Node>, recs: seq<NodeRecord>, ins: seq<seq<Socket>>, outs: seq<seq<Socket>>): HashMap
    requires |ns| == |recs| && Shaped(recs, ins, outs)
  {
    if recs == [] then hashmap
    else
      var n := |recs| - 1;
      Entered(Built(hashmap, ns[..n], recs[..n], ins[..n], outs[..n]), ns[n], recs[n], ins[n], outs[n])
  }

  lemma BuiltNext(hashmap: HashMap, ns: seq<Node>, recs: seq<NodeRecord>, ins: seq<seq<Socket>>, outs: seq<seq<Socket>>,
                   n: Node, rec: NodeRecord, inputs: seq<Socket>, outputs: seq<Socket>)
    requires |ns| == |recs| && Shaped(recs, ins, outs) && |inputs| == |rec.inputs| && |outputs| == |rec.outputs|
    ensures Shaped(recs + [rec], ins + [inputs], outs + [outputs])
    ensures Built(hashmap, ns + [n], recs + [rec], ins + [inputs], outs + [outputs]) ==
            Entered(Built(hashmap, ns, recs, ins, outs), n, rec, inputs, outputs)
  {
    assert (ns + [n])[..|ns|] == ns && (recs + [rec])[..|recs|] == recs;
    assert (ins + [inputs])[..|ins|] == ins && (outs + [outputs])[..|outs|] == outs;
  }

  /** No record of `recs` carries the id `k`, for its node or a socket. */
  predicate Unused(recs: seq<NodeRecord>, k: int)
  {
    forall i :: 0 <= i < |recs| ==> recs[i].id != k && k !in Ids(recs[i].inputs) && k !in Ids(recs[i].outputs)
  }

  /** A node's `deserialize` leaves alone every key its record does not carry. */
  lemma EnteredKeeps(hashmap: HashMap, n: Node, rec: NodeRecord, inputs: seq<Socket>, outputs: seq<Socket>, k: int)
    requires |inputs| == |rec.inputs| && |outputs| == |rec.outputs|
    requires k in hashmap && k != rec.id && k !in Ids(rec.inputs) && k !in Ids(rec.outputs)
    ensures k in Entered(hashmap, n, rec, inputs, outputs) && Entered(hashmap, n, rec, inputs, outputs)[k] == hashmap[k]
  {
    var h0 := hashmap[rec.id := NodeEntry(n)];
    IdsSorted(rec.inputs);
    IdsSorted(rec.outputs);
    EnterEntries(h0, SortBy(rec.inputs, SocketKey), inputs);
    EnterEntries(Enter(h0, SortBy(rec.inputs, SocketKey), inputs), SortBy(rec.outputs, SocketKey), outputs);
  }

  /** Deserializing one node names under the id of its input `j` (sorted)
      that input's socket, when no later input and no output carries the id. */
  lemma EnteredNamesInput(hashmap: HashMap, n: Node, rec: NodeRecord, inputs: seq<Socket>, outputs: seq<Socket>, j: nat)
    requires |inputs| == |rec.inputs| && |outputs| == |rec.outputs| && j < |rec.inputs|
    requires forall j' :: j < j' < |rec.inputs| ==> SortBy(rec.inputs, SocketKey)[j'].id != SortBy(rec.inputs, SocketKey)[j].id
    requires SortBy(rec.inputs, SocketKey)[j].id !in Ids(rec.outputs)
    ensures var k := SortBy(rec.inputs, SocketKey)[j].id;
            k in Entered(hashmap, n, rec, inputs, outputs) && Entered(hashmap, n, rec, inputs, outputs)[k] == SocketEntry(inputs[j])
  {
    var h0 := hashmap[rec.id := NodeEntry(n)];
    EnterLast(h0, SortBy(rec.inputs, SocketKey), inputs, j);
    IdsSorted(rec.outputs);
    EnterEntries(Enter(h0, SortBy(rec.inputs, SocketKey), inputs), SortBy(rec.outputs, SocketKey), outputs);
  }

  /** The table names under an id the socket made from the last socket
      record carrying it, records taken node by node, inputs (sorted)
      before outputs (sorted); here that record is input `j` of node `i`. */
  lemma {:induction false} BuiltNamesInput(hashmap: HashMap, ns: seq<Node>, recs: seq<NodeRecord>,
                                           ins: seq<seq<Socket>>, outs: seq<seq<Socket>>, i: nat, j: nat)
    requires |ns| == |recs| && Shaped(recs, ins, outs) && i < |recs| && j < |recs[i].inputs|
    requires var sorted := SortBy(recs[i].inputs, SocketKey);
             (forall j' :: j < j' < |sorted| ==> sorted[j'].id != sorted[j].id) &&
             sorted[j].id !in Ids(recs[i].outputs) && Unused(recs[i + 1..], sorted[j].id)
    ensures var k := SortBy(recs[i].inputs, SocketKey)[j].id;
            k in Built(hashmap, ns, recs, ins, outs) && Built(hashmap, ns, recs, ins, outs)[k] == SocketEntry(ins[i][j])
  {
    var n := |recs| - 1;
    var k := SortBy(recs[i].inputs, SocketKey)[j].id;
    var prev := Built(hashmap, ns[..n], recs[..n], ins[..n], outs[..n]);
    if i == n {
      EnteredNamesInput(prev, ns[n], recs[n], ins[n], outs[n], j);
    } else {
      assert recs[..n][i + 1..] == recs[i + 1..n];
      BuiltNamesInput(hashmap, ns[..n], recs[..n], ins[..n], outs[..n], i, j);
      assert recs[n] == recs[i + 1..][n - i - 1];
      EnteredKeeps(prev, ns[n], recs[n], ins[n], outs[n], k);
    }
  }

  /** Deserializing one node names under the id of its output `j` (sorted)
      that output's socket, when no later output carries the id. */
  lemma EnteredNamesOutput(hashmap: HashMap, n: Node, rec: NodeRecord, inputs: seq<Socket>, outputs: seq<Socket>, j: nat)
    requires |inputs| == |rec.inputs| && |outputs| == |rec.outputs| && j < |rec.outputs|
    requires forall j' :: j < j' < |rec.outputs| ==> SortBy(rec.outputs, SocketKey)[j'].id != SortBy(rec.outputs, SocketKey)[j].id
    ensures var k := SortBy(rec.outputs, SocketKey)[j].id;
            k in Entered(hashmap, n, rec, inputs, outputs) && Entered(hashmap, n, rec, inputs, outputs)[k] == SocketEntry(outputs[j])
  {
    var inner := Enter(hashmap[rec.id := NodeEntry(n)], SortBy(rec.inputs, SocketKey), inputs);
    EnterLast(inner, SortBy(rec.outputs, SocketKey), outputs, j);
  }

  /** As `BuiltNamesInput`, when the last record carrying the id is output
      `j` of node `i`. */
  lemma {:induction false} BuiltNamesOutput(hashmap: HashMap, ns: seq<Node>, recs: seq<NodeRecord>,
                                            ins: seq<seq<Socket>>, outs: seq<seq<Socket>>, i: nat, j: nat)
    requires |ns| == |recs| && Shaped(recs, ins, outs) && i < |recs| && j < |recs[i].outputs|
    requires var sorted := SortBy(recs[i].outputs, SocketKey);
             (forall j' :: j < j' < |sorted| ==> sorted[j'].id != sorted[j].id) && Unused(recs[i + 1..], sorted[j].id)
    ensures var k := SortBy(recs[i].outputs, SocketKey)[j].id;
            k in Built(hashmap, ns, recs, ins, outs) && Built(hashmap, ns, recs, ins, outs)[k] == SocketEntry(outs[i][j])
  {
    var n := |recs| - 1;
    var k := SortBy(recs[i].outputs, SocketKey)[j].id;
    var prev := Built(hashmap, ns[..n], recs[..n], ins[..n], outs[..n]);
    if i == n {
      EnteredNamesOutput(prev, ns[n], recs[n], ins[n], outs[n], j);
    } else {
      assert recs[..n][i + 1..] == recs[i + 1..n];
      BuiltNamesOutput(hashmap, ns[..n], recs[..n], ins[..n], outs[..n], i, j);
      assert recs[n] == recs[i + 1..][n - i - 1];
      EnteredKeeps(prev, ns[n], recs[n], ins[n], outs[n], k);
    }
  }

  /** The input lists of the nodes, in order. */
  ghost function InputLists(ns: seq<Node>): (r: seq<seq<Socket>>)
    reads ns`inputs
    ensures |r| == |ns| && forall i :: 0 <= i < |ns| ==> r[i] == ns[i].inputs
  {
    if ns == [] then [] else InputLists(ns[..|ns| - 1]) + [ns[|ns| - 1].inputs]
  }

  /** The output lists of the nodes, in order. */
  ghost function OutputLists(ns: seq<Node>): (r: seq<seq<Socket>>)
    reads ns`outputs
    ensures |r| == |ns| && forall i :: 0 <= i < |ns| ==> r[i] == ns[i].outputs
  {
    if ns == [] then [] else OutputLists(ns[..|ns| - 1]) + [ns[|ns| - 1].outputs]
  }

  /** The last `|recs|` edges, in order, join the sockets the table names
      under their records' ends. */
  ghost predicate Joined(hashmap: HashMap, edges: seq<Edge>, recs: seq<EdgeRecord>)
    reads edges`start, edges`end
  {
    |edges| >= |recs| &&
    forall j :: 0 <= j < |recs| ==>
      NamesSocket(hashmap, recs[j].start) && NamesSocket(hashmap, recs[j].end) &&
      edges[|edges| - |recs| + j].start == hashmap[recs[j].start].socket &&
      edges[|edges| - |recs| + j].end == hashmap[recs[j].end].socket
  }

  /** One more edge, joining the sockets its record names, keeps `Joined`. */
  lemma JoinedNext(hashmap: HashMap, edges: seq<Edge>, recs: seq<EdgeRecord>, e: Edge, rec: EdgeRecord)
    requires Joined(hashmap, edges, recs)
    requires NamesSocket(hashmap, rec.start) && NamesSocket(hashmap, rec.end)
    requires e.start == hashmap[rec.start].socket && e.end == hashmap[rec.end].socket
    ensures Joined(hashmap, edges + [e], recs + [rec])
  {
  }

  /** Edges listed before the joined ones do not matter. */
  lemma JoinedAfter(hashmap: HashMap, before: seq<Edge>, edges: seq<Edge>, recs: seq<EdgeRecord>)
    requires Joined(hashmap, edges, recs)
    ensures Joined(hashmap, before + edges, recs)
  {
  }

  /** The state the edge loop of `deserialize` keeps: every record read so
      far resolves, and the edges `loaded` for them serialize back to them
      and join the sockets they name. */
  ghost predicate Reading(hashmap: HashMap, nodeRecs: seq<NodeRecord>, loaded: seq<Edge>, done: seq<EdgeRecord>, restore: bool)
    reads loaded
  {
    var reading := AllResolve(nodeRecs, done) && EdgesLoaded(EdgeDocs(loaded), done, restore) && Joined(hashmap, loaded, done);
    reading
  }

  lemma ReadingNext(hashmap: HashMap, nodeRecs: seq<NodeRecord>, loaded: seq<Edge>, done: seq<EdgeRecord>, restore: bool,
                    e: Edge, rec: EdgeRecord)
    requires Reading(hashmap, nodeRecs, loaded, done, restore) && Resolves(nodeRecs, rec) && EdgeLoaded(e.Doc(), rec, restore)
    requires NamesSocket(hashmap, rec.start) && NamesSocket(hashmap, rec.end)
    requires e.start == hashmap[rec.start].socket && e.end == hashmap[rec.end].socket
    ensures Reading(hashmap, nodeRecs, loaded + [e], done + [rec], restore)
  {
    EdgesLoadedAppend(loaded, done, restore, e, rec);
    JoinedNext(hashmap, loaded, done, e, rec);
    assert (done + [rec])[..|done|] == done;
  }

  /** The records of a list of nodes, in order. */
  function NodeDocs(ns: seq<Node>): (r: seq<NodeRecord>)
    reads ns
    ensures |r| == |ns|
  {
    if ns == [] then [] else NodeDocs(ns[..|ns| - 1]) + [ns[|ns| - 1].Doc()]
  }

  lemma {:induction false} NodeDocsElements(ns: seq<Node>)
    ensures forall i :: 0 <= i < |ns| ==> NodeDocs(ns)[i] == ns[i].Doc()
  {
    if ns != [] {
      NodeDocsElements(ns[..|ns| - 1]);
    }
  }

  lemma NodeDocsAppend(ns: seq<Node>, n: Node)
    ensures NodeDocs(ns + [n]) == NodeDocs(ns) + [n.Doc()]
  {
    assert (ns + [n])[..|ns|] == ns;
  }

  /** The records of a list of edges, in order, or `None` as soon as one
      edge has a missing end. */
  function EdgeDocs(es: seq<Edge>): (r: Option<seq<EdgeRecord>>)
    reads es
    ensures r.Some? <==> forall j :: 0 <= j < |es| ==> es[j].start != null && es[j].end != null
    ensures r.Some? ==> |r.value| == |es| && forall j :: 0 <= j < |es| ==> es[j].Doc() == Some(r.value[j])
  {
    if es == [] then Some([])
    else
      var n := |es| - 1;
      match EdgeDocs(es[..n])
      case None => None
      case Some(init) =>
        if es[n].start != null && es[n].end != null then Some(init + [es[n].Doc().value]) else None
  }

  /** `doc` is what an edge deserialized from `rec` serializes to: both
      ends are set, so there is a record, with the record's type; with
      `restore` it is the record itself. */
  predicate EdgeLoaded(doc: Option<EdgeRecord>, rec: EdgeRecord, restore: bool)
  {
    doc.Some? && doc.value.edgeType == rec.edgeType && (restore ==> doc.value == rec)
  }

  /** `docs` are the records of edges deserialized from `recs`, in order. */
  predicate EdgesLoaded(docs: Option<seq<EdgeRecord>>, recs: seq<EdgeRecord>, restore: bool)
  {
    docs.Some? && |docs.value| == |recs| &&
    forall j :: 0 <= j < |recs| ==> EdgeLoaded(Some(docs.value[j]), recs[j], restore)
  }

  lemma EdgesLoadedAppend(es: seq<Edge>, recs: seq<EdgeRecord>, restore: bool, e: Edge, r: EdgeRecord)
    requires EdgesLoaded(EdgeDocs(es), recs, restore) && EdgeLoaded(e.Doc(), r, restore)
    ensures EdgesLoaded(EdgeDocs(es + [e]), recs + [r], restore)
  {
    assert (es + [e])[..|es|] == es;
  }

  /** How many of the two ends are the socket. */
  function EndsOf(ends: (Socket?, Socket?), s: Socket): nat
  {
    (if ends.0 == s then 1 else 0) + (if ends.1 == s then 1 else 0)
  }

  /** How many of the edge's two ends are the socket. */
  function EndsAt(e: Edge, s: Socket): nat
    reads e
  {
    EndsOf((e.start, e.end), s)
  }

  /** The graph as values: `listed` gives each socket's edge list, `ends`
      each edge's two ends. Lists name edges of `edges`, ends name sockets of
      `sockets`, and each socket lists each edge once per end of the edge
      that is the socket. */
  ghost predicate Consistent(sockets: set<Socket>, edges: set<Edge>,
                             listed: map<Socket, seq<Edge>>, ends: map<Edge, (Socket?, Socket?)>)
  {
    sockets <= listed.Keys && edges <= ends.Keys &&
    (forall s, e {:trigger e in listed[s]} :: s in sockets && e in listed[s] ==> e in edges) &&
    (forall e {:trigger e in edges} :: e in edges && ends[e].0 != null ==> ends[e].0 in sockets) &&
    (forall e {:trigger e in edges} :: e in edges && ends[e].1 != null ==> ends[e].1 in sockets) &&
    (forall s, e {:trigger Count(listed[s], e)} :: s in sockets && e in edges ==> Count(listed[s], e) == EndsOf(ends[e], s))
  }

  /** A new socket with an empty list keeps the graph consistent. */
  lemma AddSocketConsistent(sockets: set<Socket>, edges: set<Edge>, listed: map<Socket, seq<Edge>>,
                            ends: map<Edge, (Socket?, Socket?)>, s0: Socket)
    requires Consistent(sockets, edges, listed, ends) && s0 !in sockets
    ensures Consistent(sockets + {s0}, edges, listed[s0 := []], ends)
  {
    forall s, e | s in sockets + {s0} && e in edges
      ensures Count(listed[s0 := []][s], e) == EndsOf(ends[e], s)
    {
      if s == s0 {
        assert ends[e].0 != s0 && ends[e].1 != s0;
      }
    }
  }

  /** A new edge with no ends keeps the graph consistent. */
  lemma AddEdgeConsistent(sockets: set<Socket>, edges: set<Edge>, listed: map<Socket, seq<Edge>>,
                          ends: map<Edge, (Socket?, Socket?)>, e0: Edge)
    requires Consistent(sockets, edges, listed, ends) && e0 !in edges
    ensures Consistent(sockets, edges + {e0}, listed, ends[e0 := (null, null)])
  {
    forall s, e | s in sockets && e in edges + {e0}
      ensures Count(listed[s], e) == EndsOf(ends[e0 := (null, null)][e], s)
    {
      if e == e0 {
        CountPositive(listed[s], e0);
      }
    }
  }

  /** One end of `e0` leaves socket `from`, which drops its first listing. */
  lemma DetachConsistent(sockets: set<Socket>, edges: set<Edge>, listed: map<Socket, seq<Edge>>,
                         ends: map<Edge, (Socket?, Socket?)>, e0: Edge, from: Socket, ends0: (Socket?, Socket?))
    requires Consistent(sockets, edges, listed, ends) && e0 in edges && from in sockets
    requires (ends0 == (null, ends[e0].1) && ends[e0].0 == from) || (ends0 == (ends[e0].0, null) && ends[e0].1 == from)
    ensures Consistent(sockets, edges, listed[from := Erase(listed[from], e0)], ends[e0 := ends0])
  {
    DetachListed(sockets, edges, listed, ends, e0, from);
    DetachCounts(sockets, edges, listed, ends, e0, from, ends0);
  }

  lemma DetachListed(sockets: set<Socket>, edges: set<Edge>, listed: map<Socket, seq<Edge>>,
                     ends: map<Edge, (Socket?, Socket?)>, e0: Edge, from: Socket)
    requires Consistent(sockets, edges, listed, ends) && from in sockets
    ensures forall s, e :: s in sockets && e in listed[from := Erase(listed[from], e0)][s] ==> e in edges
  {
    var listed' := listed[from := Erase(listed[from], e0)];
    forall s, e | s in sockets && e in listed'[s]
      ensures e in edges
    {
      if s == from {
        CountErase(listed[from], e0, e);
        CountPositive(listed[from], e);
        CountPositive(listed'[from], e);
      }
    }
  }

  lemma DetachCounts(sockets: set<Socket>, edges: set<Edge>, listed: map<Socket, seq<Edge>>,
                     ends: map<Edge, (Socket?, Socket?)>, e0: Edge, from: Socket, ends0: (Socket?, Socket?))
    requires Consistent(sockets, edges, listed, ends) && e0 in edges && from in sockets
    requires (ends0 == (null, ends[e0].1) && ends[e0].0 == from) || (ends0 == (ends[e0].0, null) && ends[e0].1 == from)
    ensures forall s, e :: s in sockets && e in edges ==>
              Count(listed[from := Erase(listed[from], e0)][s], e) == EndsOf(ends[e0 := ends0][e], s)
  {
    var listed', ends' := listed[from := Erase(listed[from], e0)], ends[e0 := ends0];
    forall s, e | s in sockets && e in edges
      ensures Count(listed'[s], e) == EndsOf(ends'[e], s)
    {
      if s == from {
        CountErase(listed[from], e0, e);
        CountPositive(listed[from], e0);
      }
    }
  }

  /** One end of `e0`, which was unset, reaches socket `to`, which appends
      the edge. */
  lemma AttachConsistent(sockets: set<Socket>, edges: set<Edge>, listed: map<Socket, seq<Edge>>,
                         ends: map<Edge, (Socket?, Socket?)>, e0: Edge, to: Socket, ends0: (Socket?, Socket?))
    requires Consistent(sockets, edges, listed, ends) && e0 in edges && to in sockets
    requires (ends0 == (to, ends[e0].1) && ends[e0].0 == null) || (ends0 == (ends[e0].0, to) && ends[e0].1 == null)
    ensures Consistent(sockets, edges, listed[to := listed[to] + [e0]], ends[e0 := ends0])
  {
    var listed', ends' := listed[to := listed[to] + [e0]], ends[e0 := ends0];
    forall s, e | s in sockets && e in listed'[s]
      ensures e in edges
    {
      if s == to && e != e0 {
        assert e in listed[to];
      }
    }
    forall s, e | s in sockets && e in edges
      ensures Count(listed'[s], e) == EndsOf(ends'[e], s)
    {
      if s == to {
        CountAppend(listed[to], e0, e);
      }
    }
  }

  /** The edge list of socket `s` after one end of `e` moved from `from` to
      `to`: the first listing is dropped from the socket it left and the edge
      is appended on the socket it reached. */
  function Rebind(l: seq<Edge>, e: Edge, s: Socket, from: Socket?, to: Socket?): seq<Edge>
  {
    var l' := if s == from then Erase(l, e) else l;
    if s == to then l' + [e] else l'
  }

  /** How rebinding changes the number of listings of each edge. */
  lemma RebindCount(l: seq<Edge>, e: Edge, s: Socket, from: Socket?, to: Socket?, x: Edge)
    ensures Count(Rebind(l, e, s, from, to), x) ==
            Count(l, x) - (if x == e && s == from && e in l then 1 else 0) + (if x == e && s == to then 1 else 0)
  {
    var l' := if s == from then Erase(l, e) else l;
    if s == from {
      CountErase(l, e, x);
    }
    if s == to {
      CountAppend(l', e, x);
    }
  }

  /** Unbinding both ends of an edge that is listed once per end drops
      every listing of it and keeps the rest of the list in order. */
  lemma UnbindDropsAll(l: seq<Edge>, e: Edge, s: Socket, a: Socket?, b: Socket?)
    requires Count(l, e) == (if a == s then 1 else 0) + (if b == s then 1 else 0)
    ensures Rebind(Rebind(l, e, s, a, null), e, s, b, null) == RemoveAll(l, e)
  {
    if a == s && b == s {
      EraseDouble(l, e);
    } else if a == s || b == s {
      EraseSingle(l, e);
    } else {
      CountPositive(l, e);
      RemoveAllAbsent(l, e);
    }
  }

  /** The list of edges each socket of `ss` holds, in order. */
  ghost function EdgeLists(ss: seq<Socket>): (r: seq<seq<Edge>>)
    reads ss
    ensures |r| == |ss| && forall j :: 0 <= j < |ss| ==> r[j] == ss[j].edges
  {
    if ss == [] then [] else EdgeLists(ss[..|ss| - 1]) + [ss[|ss| - 1].edges]
  }

  /** The lists `start` records for the sockets `ss`, in order. */
  function ListsIn(start: map<Socket, seq<Edge>>, ss: seq<Socket>): (r: seq<seq<Edge>>)
    ensures |r| == |ss| && forall j :: 0 <= j < |ss| && ss[j] in start ==> r[j] == start[ss[j]]
  {
    if ss == [] then []
    else
      var last := ss[|ss| - 1];
      ListsIn(start, ss[..|ss| - 1]) + [if last in start then start[last] else []]
  }

  /** Once each socket of `n` holds what `start` records less the edges in
      `gone`, the edges attached to `n` are those `start` records at its
      sockets less `gone`. */
  lemma AttachedPruned(n: Node, start: map<Socket, seq<Edge>>, gone: set<Edge>)
    requires forall s :: s in n.inputs + n.outputs ==> s in start && s.edges == Without(start[s], gone)
    ensures n.Attached() == Union(ListsIn(start, n.inputs + n.outputs)) - gone
  {
    var ss := n.inputs + n.outputs;
    UnionWithout(ListsIn(start, ss), EdgeLists(ss), gone);
  }

  /** The edges attached to a node are exactly those some socket of it lists. */
  lemma AttachedMembers(n: Node)
    ensures forall e :: e in n.Attached() <==> exists s :: s in n.inputs + n.outputs && e in s.edges
  {
    forall e | e in n.Attached()
      ensures exists s :: s in n.inputs + n.outputs && e in s.edges
    {
      AttachedFrom(n, e);
    }
    var ss := n.inputs + n.outputs;
    forall e, s | s in ss && e in s.edges
      ensures e in n.Attached()
    {
      var ls := EdgeLists(ss);
      UnionMembers(ls);
      var j :| 0 <= j < |ss| && ss[j] == s;
      assert e in ls[j];
    }
  }

  lemma AttachedFrom(n: Node, e: Edge)
    requires e in n.Attached()
    ensures exists s :: s in n.inputs + n.outputs && e in s.edges
  {
    var ss := n.inputs + n.outputs;
    var ls := EdgeLists(ss);
    UnionMembers(ls);
    var j :| 0 <= j < |ls| && e in ls[j];
    assert ss[j] in ss;
  }

  class Bindings {
    ghost var listed: map<Socket, seq<Edge>>
    ghost var ends: map<Edge, (Socket?, Socket?)>

    constructor()
      ensures listed == map[] && ends == map[]
    {
      listed, ends := map[], map[];
    }
  }

  class Scene {
    var id: int
    var width: int
    var height: int
    var nodes: seq<Node>
    var edges: seq<Edge>
    var mode: Mode
    var modified: bool
    /** The registered change listeners, by handle, and every call made to
        one of them, in order. */
    var listeners: seq<int>
    var notified: seq<int>
    const ids: IdSource
    const bindings: Bindings

    ghost var NodeSet: set<Node>
    ghost var SocketSet: set<Socket>
    ghost var EdgeSet: set<Edge>

    /** The scene's lists, its nodes and their sockets are in the arenas and
        belong to the scene. */
    ghost predicate Structure()
      reads this, NodeSet
    {
      (forall n :: n in nodes ==> n in NodeSet) &&
      (forall e :: e in edges ==> e in EdgeSet) &&
      (forall n :: n in NodeSet ==> n.scene == this) &&
      (forall n, s :: n in NodeSet && s in n.inputs + n.outputs ==> s in SocketSet) &&
      (forall e :: e in EdgeSet ==> e.scene == this)
    }

    /** The sockets' edge lists and the edges' ends are what `bindings`
        records, and the record is consistent. */
    ghost predicate Links()
      reads this, bindings, SocketSet, EdgeSet
    {
      (forall s {:trigger s in SocketSet} :: s in SocketSet ==> s in bindings.listed && s.edges == bindings.listed[s]) &&
      (forall e {:trigger e in EdgeSet} :: e in EdgeSet ==> e in bindings.ends && bindings.ends[e] == (e.start, e.end)) &&
      Consistent(SocketSet, EdgeSet, bindings.listed, bindings.ends)
    }

    ghost predicate Valid()
      reads this, bindings, NodeSet, SocketSet, EdgeSet
    {
      Structure() && Links() && NoDup(nodes) && NoDup(edges)
    }

    /** Every list of a socket and the scene's edge list are what they
        were (`start`, `edges0`) less the edges in `gone`. */
    ghost predicate Pruned(start: map<Socket, seq<Edge>>, edges0: seq<Edge>, gone: set<Edge>)
      reads this, SocketSet
    {
      var pruned := (forall s :: s in SocketSet ==> s in start && s.edges == Without(start[s], gone)) &&
                    (forall e :: e in edges ==> e in edges0 && e !in gone) &&
                    (forall e :: e in edges0 && e !in gone ==> e in edges);
      pruned
    }

    /** `Valid`, handed on as one fact by the operations that only delegate
        to others (the binding keeps the verifier from splitting it). */
    ghost predicate Sound()
      reads this, bindings, NodeSet, SocketSet, EdgeSet
    {
      var valid := Valid(); valid
    }

    /** The scene's own fields after `deserialize`: `clear` dropped the
        modified flag without calling a listener, and the header came from
        the record (the id only with `restore`). */
    ghost predicate Settled(data: SceneRecord, restore: bool, oldId: int, oldNotified: seq<int>)
      reads this`id, this`width, this`height, this`modified, this`notified
    {
      var settled := !modified && notified == oldNotified &&
                     id == (if restore then data.id else oldId) && width == data.width && height == data.height;
      settled
    }

    /** `hashmap` is the table the node loop of `deserialize` built when
        the nodes listed from position `from` on were deserialized from
        `recs`, in order, into an empty table. */
    ghost predicate Tabled(hashmap: HashMap, from: nat, recs: seq<NodeRecord>)
      reads this`nodes, nodes`inputs, nodes`outputs
    {
      var tabled := from <= |nodes| && |nodes| - from == |recs| &&
                    var ns := nodes[from..];
                    Shaped(recs, InputLists(ns), OutputLists(ns)) &&
                    hashmap == Built(map[], ns, recs, InputLists(ns), OutputLists(ns));
      tabled
    }

    /** `Tabled`, with the nodes' socket lists recorded in `ins` and `outs`
        as the loop goes. */
    ghost predicate Building(hashmap: HashMap, from: nat, recs: seq<NodeRecord>, ins: seq<seq<Socket>>, outs: seq<seq<Socket>>)
      reads this`nodes, nodes`inputs, nodes`outputs
    {
      var building := from <= |nodes| && |nodes| - from == |recs| && Shaped(recs, ins, outs) &&
                      (forall j :: 0 <= j < |recs| ==> nodes[from + j].inputs == ins[j] && nodes[from + j].outputs == outs[j]) &&
                      hashmap == Built(map[], nodes[from..], recs, ins, outs);
      building
    }

    lemma BuildingTabled(hashmap: HashMap, from: nat, recs: seq<NodeRecord>, ins: seq<seq<Socket>>, outs: seq<seq<Socket>>)
      requires Building(hashmap, from, recs, ins, outs)
      ensures Tabled(hashmap, from, recs)
    {
      assert InputLists(nodes[from..]) == ins && OutputLists(nodes[from..]) == outs;
    }

    /** One more node `n`, deserialized from `rec` into the table and
        listed last, extends what the nodes before it built. */
    lemma BuildingStep(hashmap: HashMap, from: nat, recs: seq<NodeRecord>, ins: seq<seq<Socket>>, outs: seq<seq<Socket>>,
                       n: Node, rec: NodeRecord)
      requires from < |nodes| && nodes[|nodes| - 1] == n && |n.inputs| == |rec.inputs| && |n.outputs| == |rec.outputs|
      requires |nodes| - 1 - from == |recs| && Shaped(recs, ins, outs)
      requires forall j :: 0 <= j < |recs| ==> nodes[from + j].inputs == ins[j] && nodes[from + j].outputs == outs[j]
      requires hashmap == Built(map[], nodes[from..|nodes| - 1], recs, ins, outs)
      ensures Building(Entered(hashmap, n, rec, n.inputs, n.outputs), from, recs + [rec], ins + [n.inputs], outs + [n.outputs])
    {
      BuiltNext(map[], nodes[from..|nodes| - 1], recs, ins, outs, n, rec, n.inputs, n.outputs);
      assert nodes[from..] == nodes[from..|nodes| - 1] + [n];
    }

    /** Each of the last `|recs|` edges joins the two sockets that the nodes
        listed from position `from` on, deserialized from `nodeRecs` into an
        empty table, leave named under its record's ends. */
    ghost predicate EdgesJoin(from: nat, nodeRecs: seq<NodeRecord>, recs: seq<EdgeRecord>)
      reads this`nodes, nodes`inputs, nodes`outputs, this`edges, edges
    {
      var join := from <= |nodes| && |nodes| - from == |nodeRecs| &&
                  var ns := nodes[from..];
                  Shaped(nodeRecs, InputLists(ns), OutputLists(ns)) &&
                  Joined(Built(map[], ns, nodeRecs, InputLists(ns), OutputLists(ns)), edges, recs);
      join
    }

    /** Edges joined through the table the node loop built join the
        sockets its nodes leave named. */
    lemma TabledJoin(hashmap: HashMap, from: nat, nodeRecs: seq<NodeRecord>, recs: seq<EdgeRecord>)
      requires Tabled(hashmap, from, nodeRecs) && Joined(hashmap, edges, recs)
      ensures EdgesJoin(from, nodeRecs, recs)
    {
    }

    /** The outcome of the edge loop of `deserialize`: `ok` exactly when
        every edge record names two sockets of the loaded nodes, and then the
        last edges of the scene are the records' edges, one per record. */
    ghost predicate EdgesRead(nodeRecs: seq<NodeRecord>, recs: seq<EdgeRecord>, restore: bool, ok: bool)
      reads this`edges, edges
    {
      var read := (ok == AllResolve(nodeRecs, recs)) &&
                  (ok ==> |edges| >= |recs| && EdgesLoaded(EdgeDocs(edges[|edges| - |recs|..]), recs, restore));
      read
    }

    /** A new scene: no nodes or edges, 64000 by 64000, mode NONE, not modified. */
    constructor(firstId: int)
      ensures Valid()
      ensures id == firstId && fresh(ids) && ids.next == firstId + 1
      ensures nodes == [] && edges == [] && width == 64000 && height == 64000
      ensures mode == Idle && !modified && listeners == [] && notified == []
      ensures NodeSet == {} && SocketSet == {} && EdgeSet == {}
    {
      id := firstId;
      ids := new IdSource(firstId + 1);
      bindings := new Bindings();
      nodes, edges := [], [];
      width, height := 64000, 64000;
      mode := Idle;
      modified := false;
      listeners, notified := [], [];
      NodeSet, SocketSet, EdgeSet := {}, {}, {};
    }

    /** In a valid scene each socket lists each edge once per end of the
        edge that is the socket: no listing without an end, no end without
        a listing. */
    lemma Agreement(s: Socket, e: Edge)
      requires Valid() && s in SocketSet && e in EdgeSet
      ensures Count(s.edges, e) == EndsAt(e, s)
      ensures e in s.edges <==> e.start == s || e.end == s
    {
      CountPositive(s.edges, e);
    }

    /** The `modified` setter: the listeners are called, in order, exactly when
        the flag goes from false to true; the flag always ends as assigned. */
    method SetModified(v: bool)
      modifies this`modified, this`notified
      ensures modified == v && (old(Sound()) ==> Sound())
      ensures notified == old(notified) + (if !old(modified) && v then listeners else [])
    {
      if !modified && v {
        modified := v;
        var calls := notified;
        var i := 0;
        while i < |listeners|
          invariant 0 <= i <= |listeners|
          invariant calls == old(notified) + listeners[..i]
        {
          calls := calls + [listeners[i]];
          i := i + 1;
        }
        notified := calls;
      }
      modified := v;
    }

    method Observe(listener: int)
      modifies this`listeners
      ensures listeners == old(listeners) + [listener]
    {
      listeners := listeners + [listener];
    }

    /** `list.remove` on the listeners: `ok` is false where the source raises
        ValueError, and the list is then unchanged. */
    method RemoveObserver(listener: int) returns (ok: bool)
      modifies this`listeners
      ensures ok == (listener in old(listeners))
      ensures listeners == Erase(old(listeners), listener)
    {
      ok := listener in listeners;
      listeners := Erase(listeners, listener);
    }

    method RemoveObservers()
      modifies this`listeners
      ensures listeners == []
    {
      listeners := [];
    }

    method AddNode(n: Node)
      modifies this`nodes
      ensures nodes == old(nodes) + [n]
    {
      nodes := nodes + [n];
    }

    method AddEdge(e: Edge)
      modifies this`edges
      ensures edges == old(edges) + [e]
    {
      edges := edges + [e];
    }

    /** Drops the first occurrence; an absent node is only logged (`found` false). */
    method RemoveNode(n: Node) returns (found: bool)
      modifies this`nodes
      ensures found == (n in old(nodes))
      ensures nodes == Erase(old(nodes), n)
    {
      found := n in nodes;
      if found {
        nodes := Erase(nodes, n);
      }
    }

    /** Drops the first occurrence; an absent edge is only logged (`found` false). */
    method RemoveEdge(e: Edge) returns (found: bool)
      modifies this`edges
      ensures found == (e in old(edges))
      ensures edges == Erase(old(edges), e)
    {
      found := e in edges;
      if found {
        edges := Erase(edges, e);
      }
    }

    /** `clear`: `modified` is set to false (which calls no listener), then
        the first node is removed until none is left. With the intended
        `Node.remove` every socket of every removed node ends with no edges,
        so no edge is left ending at one of them. */
    method Clear()
      requires Valid()
      modifies this`modified, this`notified, this`nodes, this`edges, bindings, EdgeSet, SocketSet
      ensures Valid() && nodes == [] && !modified && notified == old(notified)
      ensures forall n, s :: n in old(nodes) && s in n.inputs + n.outputs ==> s.edges == []
      ensures forall e :: e in edges ==> e in old(edges)
    {
      SetModified(false);
      while nodes != []
        invariant Valid() && !modified && notified == old(notified)
        invariant forall n :: n in nodes ==> n in old(nodes)
        invariant forall n, s :: n in old(nodes) && n !in nodes && s in n.inputs + n.outputs ==> s.edges == []
        invariant forall e :: e in edges ==> e in old(edges)
        decreases |nodes|
      {
        var n := nodes[0];
        EraseLength(nodes, n);
        EraseNoDup(nodes, n);
        n.Remove();
      }
    }

    /** `socket.edges[i].remove()`: the edge leaves the scene's list and every
        socket's list loses every listing of it. */
    method RemoveListed(socket: Socket, i: nat) returns (e: Edge)
      requires Valid() && socket in SocketSet && i < |socket.edges|
      modifies this`edges, bindings, EdgeSet, SocketSet
      ensures Valid() && e == old(socket.edges[i])
      ensures forall x :: x in edges <==> x in old(edges) && x != e
      ensures forall s :: s in SocketSet ==> s.edges == RemoveAll(old(s.edges), e)
      ensures |socket.edges| < |old(socket.edges)|
      ensures forall x :: x in socket.edges <==> x in old(socket.edges) && x != e
    {
      e := socket.edges[i];
      assert e in bindings.listed[socket];
      assert e in EdgeSet && e.scene == this;
      EraseNoDup(edges, e);
      ghost var before := socket.edges;
      e.Remove();
      RemoveAllShorter(before, e);
      RemoveAllMembers(before, e);
    }

    /** `RemoveListed`, against the lists the scene started with. */
    method DropListed(socket: Socket, i: nat, ghost start: map<Socket, seq<Edge>>, ghost edges0: seq<Edge>, ghost gone: set<Edge>)
      returns (e: Edge)
      requires Valid() && socket in SocketSet && i < |socket.edges| && Pruned(start, edges0, gone)
      modifies this`edges, bindings, EdgeSet, SocketSet
      ensures Valid() && e == old(socket.edges[i]) && socket.edges == RemoveAll(old(socket.edges), e)
      ensures Pruned(start, edges0, gone + {e})
    {
      e := RemoveListed(socket, i);
      forall s | s in SocketSet
        ensures s.edges == Without(start[s], gone + {e})
      {
        RemoveAllWithout(old(s.edges), e);
        WithoutTwice(start[s], gone, {e});
      }
    }

    /** `serialize`: the header, the records of the nodes and the records of
        the edges, both in list order. Serializing an edge with a missing
        end raises, so such a scene has no record. */
    function Doc(): (r: Option<SceneRecord>)
      reads this`id, this`width, this`height, this`nodes, this`edges, nodes, edges
      ensures r.Some? <==> forall e :: e in edges ==> e.start != null && e.end != null
    {
      match EdgeDocs(edges)
      case None => None
      case Some(es) => Some(SceneRecord(id, width, height, NodeDocs(nodes), es))
    }

    /** `serialize`, with its two append loops; the loop over the edges stops
        at the first edge with a missing end. */
    method Serialize() returns (r: Option<SceneRecord>)
      ensures r == Doc()
    {
      var ns: seq<NodeRecord> := [];
      for k := 0 to |nodes|
        invariant ns == NodeDocs(nodes[..k])
      {
        var d := nodes[k].Serialize();
        assert nodes[..k + 1][..k] == nodes[..k];
        ns := ns + [d];
      }
      var es: seq<EdgeRecord> := [];
      for k := 0 to |edges|
        invariant EdgeDocs(edges[..k]) == Some(es)
      {
        var d := edges[k].Doc();
        assert edges[..k + 1][..k] == edges[..k];
        if d.None? {
          assert edges[..k + 1][k] == edges[k];
          assert !(forall e :: e in edges ==> e.start != null && e.end != null);
          return None;
        }
        es := es + [d.value];
      }
      assert nodes[..|nodes|] == nodes && edges[..|edges|] == edges;
      r := Some(SceneRecord(id, width, height, ns, es));
    }

    /** `deserialize`: the scene is cleared and its id taken from the record
        only with `restore`; the size is taken over; each node record makes
        a new node, deserialized into one id table that starts empty; each
        edge record makes a new edge, deserialized against that table. A
        record whose ends do not both name sockets makes the source raise,
        which the model reports as `ok` false after that edge. With `restore`
        the nodes serialize back to their records, sockets sorted, and a
        successful load's new edges to theirs. */
    method Deserialize(data: SceneRecord, restore: bool) returns (ok: bool)
      requires Sound()
      modifies this`id, this`width, this`height, this`modified, this`notified, this`nodes, this`edges
      modifies this`NodeSet, this`SocketSet, this`EdgeSet, bindings, ids, EdgeSet, SocketSet
      ensures Sound() && Settled(data, restore, old(id), old(notified))
      ensures NodesLoaded(NodeDocs(nodes), data.nodes, restore)
      ensures EdgesRead(data.nodes, data.edges, restore, ok)
      ensures ok ==> EdgesJoin(0, data.nodes, data.edges)
    {
      Reset(data, restore);
      ok := Populate(data, restore);
    }

    /** The start of `deserialize`: `clear`, then the header. */
    method Reset(data: SceneRecord, restore: bool)
      requires Sound()
      modifies this`id, this`width, this`height, this`modified, this`notified, this`nodes, this`edges
      modifies bindings, EdgeSet, SocketSet
      ensures Sound() && nodes == [] && Settled(data, restore, old(id), old(notified))
    {
      Clear();
      SetHeader(data, restore);
    }

    /** The node and edge loops of `deserialize`, on a cleared scene. */
    method Populate(data: SceneRecord, restore: bool) returns (ok: bool)
      requires Sound() && nodes == []
      modifies this`nodes, this`edges, this`NodeSet, this`SocketSet, this`EdgeSet, bindings, ids, SocketSet
      ensures Sound()
      ensures NodesLoaded(NodeDocs(nodes), data.nodes, restore)
      ensures EdgesRead(data.nodes, data.edges, restore, ok)
      ensures ok ==> EdgesJoin(0, data.nodes, data.edges)
    {
      var h := LoadNodes(data.nodes, restore);
      ghost var docs := NodeDocs(nodes);
      ok := JoinEdges(data.edges, h, restore, data.nodes, 0);
      assert NodeDocs(nodes) == docs;
    }

    /** The header part of `deserialize`. */
    method SetHeader(data: SceneRecord, restore: bool)
      requires Sound()
      modifies this`id, this`width, this`height
      ensures Sound() && id == (if restore then data.id else old(id)) && width == data.width && height == data.height
    {
      if restore {
        id := data.id;
      }
      width, height := data.width, data.height;
    }

    /** The node loop of `deserialize`, on a cleared scene. */
    method LoadNodes(recs: seq<NodeRecord>, restore: bool) returns (h: HashMap)
      requires Sound() && nodes == []
      modifies this`nodes, this`NodeSet, this`SocketSet, bindings, ids
      ensures Sound() && fresh(SocketSet - old(SocketSet))
      ensures Indexes(h, recs, restore, SocketSet) && Tabled(h, 0, recs)
      ensures NodesLoaded(NodeDocs(nodes), recs, restore)
    {
      h := map[];
      ghost var ins: seq<seq<Socket>>, outs: seq<seq<Socket>> := [], [];
      assert recs[..0] == [];
      for i := 0 to |recs|
        invariant Sound() && fresh(SocketSet - old(SocketSet))
        invariant Loading(h, recs[..i], restore, ins, outs)
      {
        var n;
        n, h := LoadStep(recs[i], h, restore, recs[..i], ins, outs);
        TakeNext(recs, i);
        ins, outs := ins + [n.inputs], outs + [n.outputs];
      }
      assert recs[..|recs|] == recs;
      LoadingDone(h, recs, restore, ins, outs);
    }

    /** One pass of `LoadNodes`' loop: the next record is loaded, and
        `Loading` moves on by one record. */
    method LoadStep(rec: NodeRecord, hashmap: HashMap, restore: bool, ghost done: seq<NodeRecord>,
                    ghost ins: seq<seq<Socket>>, ghost outs: seq<seq<Socket>>) returns (n: Node, h: HashMap)
      requires Sound() && Loading(hashmap, done, restore, ins, outs)
      modifies this`nodes, this`NodeSet, this`SocketSet, bindings, ids
      ensures Sound() && fresh(SocketSet - old(SocketSet))
      ensures Loading(h, done + [rec], restore, ins + [n.inputs], outs + [n.outputs])
    {
      ghost var docs := NodeDocs(nodes);
      n, h := LoadNode(rec, hashmap, restore, done, 0, ins, outs);
      NodesLoadedAppend(docs, done, restore, n.Doc(), rec);
    }

    /** Part way through `LoadNodes`: the nodes listed are those of `done`,
        in order, and the table is what they built. */
    ghost predicate Loading(hashmap: HashMap, done: seq<NodeRecord>, restore: bool, ins: seq<seq<Socket>>, outs: seq<seq<Socket>>)
      reads this`nodes, this`SocketSet, nodes
    {
      var loading := Indexes(hashmap, done, restore, SocketSet) && NodesLoaded(NodeDocs(nodes), done, restore) &&
                     Building(hashmap, 0, done, ins, outs);
      loading
    }

    lemma LoadingDone(hashmap: HashMap, recs: seq<NodeRecord>, restore: bool, ins: seq<seq<Socket>>, outs: seq<seq<Socket>>)
      requires Loading(hashmap, recs, restore, ins, outs)
      ensures Indexes(hashmap, recs, restore, SocketSet) && Tabled(hashmap, 0, recs)
      ensures NodesLoaded(NodeDocs(nodes), recs, restore)
    {
      BuildingTabled(hashmap, 0, recs, ins, outs);
    }

    /** `Node(self).deserialize(rec, hashmap, restore)`: a blank node joins
        the scene and is deserialized, and the table grows by the record
        (`prev` are the records loaded before). No node that was there before
        changes. */
    method LoadNode(rec: NodeRecord, hashmap: HashMap, restore: bool, ghost prev: seq<NodeRecord>,
                    ghost from: nat, ghost ins: seq<seq<Socket>>, ghost outs: seq<seq<Socket>>) returns (n: Node, h: HashMap)
      requires Sound() && Indexes(hashmap, prev, restore, SocketSet) && Building(hashmap, from, prev, ins, outs)
      modifies this`nodes, this`NodeSet, this`SocketSet, bindings, ids
      ensures Sound() && fresh(SocketSet - old(SocketSet))
      ensures fresh(n) && nodes == old(nodes) + [n] && NodeLoaded(n.Doc(), rec, restore)
      ensures Indexes(h, prev + [rec], restore, SocketSet)
      ensures |n.inputs| == |rec.inputs| && |n.outputs| == |rec.outputs| && h == Entered(hashmap, n, rec, n.inputs, n.outputs)
      ensures Building(h, from, prev + [rec], ins + [n.inputs], outs + [n.outputs])
      ensures NodeDocs(nodes) == old(NodeDocs(nodes)) + [n.Doc()]
    {
      ghost var docs := NodeDocs(nodes);
      n, h := LoadBlank(rec, hashmap, restore, prev);
      forall j | 0 <= j < |prev|
        ensures nodes[from + j].inputs == ins[j] && nodes[from + j].outputs == outs[j]
      {
        assert nodes[from + j] == old(nodes)[from + j] && nodes[from + j] in old(nodes);
      }
      assert nodes[from..|nodes| - 1] == old(nodes[from..]);
      BuildingStep(hashmap, from, prev, ins, outs, n, rec);
      assert NodeDocs(old(nodes)) == docs;
      NodeDocsAppend(old(nodes), n);
    }

    /** The two steps of `LoadNode`: a blank node joins the scene and is
        deserialized; the nodes before it keep their socket lists. */
    method LoadBlank(rec: NodeRecord, hashmap: HashMap, restore: bool, ghost prev: seq<NodeRecord>) returns (n: Node, h: HashMap)
      requires Sound() && Indexes(hashmap, prev, restore, SocketSet)
      modifies this`nodes, this`NodeSet, this`SocketSet, bindings, ids
      ensures Sound() && fresh(SocketSet - old(SocketSet))
      ensures fresh(n) && nodes == old(nodes) + [n] && NodeLoaded(n.Doc(), rec, restore)
      ensures Indexes(h, prev + [rec], restore, SocketSet)
      ensures |n.inputs| == |rec.inputs| && |n.outputs| == |rec.outputs| && h == Entered(hashmap, n, rec, n.inputs, n.outputs)
      ensures unchanged(old(nodes))
    {
      n := NewBlankNode();
      h := n.Deserialize(rec, hashmap, restore, old(nodes));
      EnteredIndexes(hashmap, n, rec, n.inputs, n.outputs, prev, restore, SocketSet);
    }

    /** `Node(self)`: a node titled "Undefined" with no sockets. */
    method NewBlankNode() returns (n: Node)
      requires Sound()
      modifies this`nodes, this`NodeSet, this`SocketSet, bindings, ids
      ensures Sound() && fresh(n) && n.scene == this && n in NodeSet
      ensures nodes == old(nodes) + [n] && SocketSet == old(SocketSet)
    {
      n := new Node(this, "Undefined", [], []);
    }

    /** The edge loop of `deserialize`: it stops at the first record whose
        ends do not both name sockets. */
    method LoadEdges(recs: seq<EdgeRecord>, hashmap: HashMap, restore: bool, ghost nodeRecs: seq<NodeRecord>) returns (ok: bool)
      requires Sound() && Indexes(hashmap, nodeRecs, restore, SocketSet)
      modifies this`edges, this`EdgeSet, bindings, ids, SocketSet
      ensures Sound() && nodes == old(nodes) && old(edges) <= edges
      ensures EdgesRead(nodeRecs, recs, restore, ok)
      ensures ok ==> Joined(hashmap, edges, recs)
    {
      var k := 0;
      ghost var loaded: seq<Edge> := [];
      while k < |recs|
        invariant 0 <= k <= |recs| && Sound() && nodes == old(nodes)
        invariant edges == old(edges) + loaded
        invariant Reading(hashmap, nodeRecs, loaded, recs[..k], restore)
      {
        var e;
        e, ok := LoadEdgeRead(recs[k], hashmap, restore, nodeRecs, loaded, recs[..k]);
        if !ok {
          assert !AllResolve(nodeRecs, recs) by {
            assert !Resolves(nodeRecs, recs[k]);
          }
          AppendAssoc(old(edges), loaded, e);
          return;
        }
        TakeNext(recs, k);
        AppendAssoc(old(edges), loaded, e);
        loaded := loaded + [e];
        k := k + 1;
      }
      assert recs[..k] == recs;
      assert edges[|edges| - |recs|..] == loaded;
      JoinedAfter(hashmap, old(edges), loaded, recs);
      ok := true;
    }

    /** The edge loop of `deserialize` run against the table its node loop
        built from the nodes listed from position `from` on: each new edge
        joins the sockets those nodes leave named under its record's ends. */
    method JoinEdges(recs: seq<EdgeRecord>, hashmap: HashMap, restore: bool, ghost nodeRecs: seq<NodeRecord>, ghost from: nat)
      returns (ok: bool)
      requires Sound() && Indexes(hashmap, nodeRecs, restore, SocketSet) && Tabled(hashmap, from, nodeRecs)
      modifies this`edges, this`EdgeSet, bindings, ids, SocketSet
      ensures Sound() && nodes == old(nodes) && unchanged(nodes) && old(edges) <= edges
      ensures EdgesRead(nodeRecs, recs, restore, ok)
      ensures ok ==> EdgesJoin(from, nodeRecs, recs)
    {
      ok := LoadEdges(recs, hashmap, restore, nodeRecs);
      if ok {
        TabledJoin(hashmap, from, nodeRecs, recs);
      }
    }

    /** One pass of the edge loop of `deserialize`, in the terms of the state
        the loop keeps: the edge joins the scene, and `ok` says whether its
        record resolves against the node records. */
    method LoadEdgeRead(rec: EdgeRecord, hashmap: HashMap, restore: bool, ghost nodeRecs: seq<NodeRecord>,
                        ghost loaded: seq<Edge>, ghost done: seq<EdgeRecord>) returns (e: Edge, ok: bool)
      requires Sound() && Indexes(hashmap, nodeRecs, restore, SocketSet) && Reading(hashmap, nodeRecs, loaded, done, restore)
      modifies this`edges, this`EdgeSet, bindings, ids, SocketSet
      ensures Sound() && edges == old(edges) + [e] && nodes == old(nodes)
      ensures ok == Resolves(nodeRecs, rec)
      ensures ok ==> Reading(hashmap, nodeRecs, loaded + [e], done + [rec], restore)
    {
      assert KindOf(hashmap, rec.start) == KindAfter(nodeRecs, rec.start);
      assert KindOf(hashmap, rec.end) == KindAfter(nodeRecs, rec.end);
      e, ok := LoadEdge(rec, hashmap, restore);
      if ok {
        ReadingNext(hashmap, nodeRecs, loaded, done, restore, e, rec);
      }
    }

    /** `Edge(self).deserialize(rec, hashmap, restore)`: an edge with no ends
        and the direct type joins the scene and is deserialized. */
    method LoadEdge(rec: EdgeRecord, hashmap: HashMap, restore: bool) returns (e: Edge, ok: bool)
      requires Sound() && SocketsIn(hashmap, SocketSet)
      modifies this`edges, this`EdgeSet, bindings, ids, SocketSet
      ensures Sound() && fresh(e) && edges == old(edges) + [e] && nodes == old(nodes)
      ensures ok == (NamesSocket(hashmap, rec.start) && NamesSocket(hashmap, rec.end))
      ensures ok ==> e.start == hashmap[rec.start].socket && e.end == hashmap[rec.end].socket
      ensures ok ==> EdgeLoaded(e.Doc(), rec, restore && Keyed(hashmap))
    {
      e := new Edge(this, null, null, DIRECT);
      ok := e.Deserialize(rec, hashmap, restore);
    }
  }

  class Node {
    const scene: Scene
    var id: int
    var title: string
    var posX: real
    var posY: real
    /** The id of the node's content object, which is serialized with the node. */
    const contentId: int
    var inputs: seq<Socket>
    var outputs: seq<Socket>

    /** `Node(scene, title, inputs, outputs)`: the node is appended to the
        scene and gets one new socket per requested socket type (an absent
        list is the empty one). */
    constructor(scene: Scene, title: string, inputs: seq<int>, outputs: seq<int>)
      requires scene.Valid()
      modifies scene`nodes, scene`NodeSet, scene`SocketSet, scene.bindings, scene.ids
      ensures scene.Valid() && this.scene == scene
      ensures scene.nodes == old(scene.nodes) + [this] && scene.NodeSet == old(scene.NodeSet) + {this}
      ensures this.title == title && posX == 0.0 && posY == 0.0
      ensures Laid(this.inputs, inputs, LEFT_BOTTOM, false) && Laid(this.outputs, outputs, RIGHT_TOP, true)
      ensures forall s :: s in this.inputs + this.outputs ==> fresh(s) && s.node == this && s.edges == []
      ensures scene.SocketSet == old(scene.SocketSet) + Elements(this.inputs + this.outputs)
    {
      this.scene := scene;
      var nid := scene.ids.Fresh();
      var cid := scene.ids.Fresh();
      id, contentId := nid, cid;
      this.title := title;
      posX, posY := 0.0, 0.0;
      this.inputs, this.outputs := [], [];
      new;
      scene.AddNode(this);
      scene.NodeSet := scene.NodeSet + {this};
      AppendNoDup(old(scene.nodes), this);
      InitSockets(inputs, outputs);
    }

    /** `_init_sockets`: inputs get indices 0..n-1 at LEFT_BOTTOM and take a
        single edge; outputs get indices 0..m-1 at RIGHT_TOP and take many. */
    method InitSockets(inputs: seq<int>, outputs: seq<int>)
      requires scene.Valid() && this in scene.NodeSet && this.inputs == [] && this.outputs == []
      modifies this`inputs, this`outputs, scene`SocketSet, scene.bindings, scene.ids
      ensures scene.Valid()
      ensures Laid(this.inputs, inputs, LEFT_BOTTOM, false) && Laid(this.outputs, outputs, RIGHT_TOP, true)
      ensures forall s :: s in this.inputs + this.outputs ==> fresh(s) && s.node == this && s.edges == []
      ensures scene.SocketSet == old(scene.SocketSet) + Elements(this.inputs + this.outputs)
    {
      InitInputs(inputs);
      InitOutputs(outputs);
      assert Elements(this.inputs + this.outputs) == Elements(this.inputs) + Elements(this.outputs);
    }

    /** The input half of `_init_sockets`. */
    method InitInputs(types: seq<int>)
      requires scene.Valid() && this in scene.NodeSet && inputs == []
      modifies this`inputs, scene`SocketSet, scene.bindings, scene.ids
      ensures scene.Valid() && Laid(inputs, types, LEFT_BOTTOM, false)
      ensures forall s :: s in inputs ==> fresh(s) && s.node == this && s.edges == []
      ensures scene.SocketSet == old(scene.SocketSet) + Elements(inputs)
    {
      var counter := 0;
      while counter < |types|
        invariant 0 <= counter <= |types|
        invariant scene.Valid() && this in scene.NodeSet
        invariant Laid(inputs, types[..counter], LEFT_BOTTOM, false)
        invariant forall s :: s in inputs ==> fresh(s) && s.node == this && s.edges == []
        invariant scene.SocketSet == old(scene.SocketSet) + Elements(inputs)
      {
        var socket := NewSocket(counter, LEFT_BOTTOM, types[counter], false);
        AppendInput(socket);
        counter := counter + 1;
      }
    }

    /** The output half of `_init_sockets`. */
    method InitOutputs(types: seq<int>)
      requires scene.Valid() && this in scene.NodeSet && outputs == []
      modifies this`outputs, scene`SocketSet, scene.bindings, scene.ids
      ensures scene.Valid() && Laid(outputs, types, RIGHT_TOP, true)
      ensures forall s :: s in outputs ==> fresh(s) && s.node == this && s.edges == []
      ensures scene.SocketSet == old(scene.SocketSet) + Elements(outputs)
    {
      var counter := 0;
      while counter < |types|
        invariant 0 <= counter <= |types|
        invariant scene.Valid() && this in scene.NodeSet
        invariant Laid(outputs, types[..counter], RIGHT_TOP, true)
        invariant forall s :: s in outputs ==> fresh(s) && s.node == this && s.edges == []
        invariant scene.SocketSet == old(scene.SocketSet) + Elements(outputs)
      {
        var socket := NewSocket(counter, RIGHT_TOP, types[counter], true);
        AppendOutput(socket);
        counter := counter + 1;
      }
    }

    /** `remove` as intended: every edge at any of the node's sockets is
        removed, then the node leaves the scene's list (an absent node is
        only logged). Each socket's list is emptied the way `removeEdges`
        does it. */
    method Remove()
      requires scene.Sound() && this in scene.NodeSet
      modifies scene`nodes, scene`edges, scene.bindings, scene.EdgeSet, scene.SocketSet
      ensures scene.Sound()
      ensures scene.nodes == Erase(old(scene.nodes), this) && this !in scene.nodes
      ensures forall s :: s in inputs + outputs ==> s.edges == []
      ensures forall s :: s in scene.SocketSet ==> s.edges == Without(old(s.edges), old(Attached()))
      ensures forall e :: e in scene.edges <==> e in old(scene.edges) && e !in old(Attached())
    {
      ghost var start := map s | s in scene.SocketSet :: s.edges;
      forall s | s in scene.SocketSet
        ensures s.edges == Without(start[s], {})
      {
        WithoutNothing(s.edges);
      }
      ClearSockets(start, scene.edges);
      LeaveScene();
    }

    /** The socket loop of `remove`: every edge listed by a socket of the
        node when the loop starts leaves every list and the scene's list. */
    method ClearSockets(ghost start: map<Socket, seq<Edge>>, ghost edges0: seq<Edge>)
      requires scene.Valid() && this in scene.NodeSet && scene.Pruned(start, edges0, {})
      modifies scene`edges, scene.bindings, scene.EdgeSet, scene.SocketSet
      ensures scene.Valid() && scene.Pruned(start, edges0, old(Attached()))
      ensures forall s :: s in inputs + outputs ==> s.edges == []
    {
      var sockets := inputs + outputs;
      assert forall j :: 0 <= j < |sockets| ==> sockets[j] in scene.SocketSet;
      ghost var lists := EdgeLists(sockets);
      forall j | 0 <= j < |sockets|
        ensures start[sockets[j]] == lists[j]
      {
        WithoutNothing(start[sockets[j]]);
      }
      var k := 0;
      ghost var gone: set<Edge> := {};
      assert Union(lists[..k]) == gone;
      while k < |sockets|
        invariant 0 <= k <= |sockets|
        invariant scene.Valid()
        invariant gone == Union(lists[..k]) && scene.Pruned(start, edges0, gone)
      {
        ClearSocket(sockets[k], start, edges0, gone);
        UnionNext(lists, k);
        gone := gone + Elements(lists[k]);
        k := k + 1;
      }
      assert lists[..k] == lists;
      UnionMembers(lists);
      forall j | 0 <= j < |sockets|
        ensures sockets[j].edges == []
      {
        WithoutCovered(lists[j], Union(lists));
      }
    }

    /** One pass of the socket loop of `remove`, against the lists the scene
        started with: after the edges in `gone`, every edge the socket
        started with has left every socket's list and the scene's. */
    method ClearSocket(socket: Socket, ghost start: map<Socket, seq<Edge>>, ghost edges0: seq<Edge>, ghost gone: set<Edge>)
      requires scene.Valid() && socket in scene.SocketSet && scene.Pruned(start, edges0, gone)
      modifies scene`edges, scene.bindings, scene.EdgeSet, scene.SocketSet
      ensures scene.Valid() && scene.Pruned(start, edges0, gone + Elements(start[socket]))
    {
      ghost var list := socket.edges;
      socket.RemoveEdges(scene);
      WithoutElements(start[socket], gone);
      WithoutMembers(start[socket], gone);
      forall s | s in scene.SocketSet
        ensures s.edges == Without(start[s], gone + Elements(list))
      {
        WithoutTwice(start[s], gone, Elements(list));
      }
      assert gone + Elements(list) == gone + Elements(start[socket]);
    }

    /** Every edge some socket of the node lists. */
    ghost function Attached(): set<Edge>
      reads this, inputs, outputs
    {
      Union(EdgeLists(inputs + outputs))
    }

    /** `self.scene.removeNode(self)`. */
    method LeaveScene()
      requires scene.Valid() && this in scene.NodeSet
      modifies scene`nodes
      ensures scene.Valid() && scene.nodes == Erase(old(scene.nodes), this) && this !in scene.nodes
    {
      var found := scene.RemoveNode(this);
      EraseNoDup(old(scene.nodes), this);
    }

    /** The inner loop of `remove` as written: `for edge in socket.edges`
        while each `edge.remove()` deletes that edge from the very list being
        walked. The loop's position moves on as the list closes up, so it
        reaches exactly `Visited(socket.edges, 0)`, and only those edges
        leave the scene. */
    method RemoveVisited(socket: Socket) returns (visited: seq<Edge>)
      requires scene.Valid() && socket in scene.SocketSet
      modifies scene`edges, scene.bindings, scene.EdgeSet, scene.SocketSet
      ensures scene.Valid()
      ensures visited == Visited(old(socket.edges), 0)
      ensures forall e :: e in scene.edges <==> e in old(scene.edges) && e !in visited
      ensures forall s :: s in scene.SocketSet ==> s.edges == Without(old(s.edges), Elements(visited))
    {
      var i := 0;
      visited := [];
      ghost var start := map s | s in scene.SocketSet :: s.edges;
      ghost var gone: set<Edge> := {};
      forall s | s in scene.SocketSet
        ensures s.edges == Without(start[s], gone)
      {
        WithoutNothing(s.edges);
      }
      while i < |socket.edges|
        invariant scene.Valid() && socket in scene.SocketSet
        invariant visited + Visited(socket.edges, i) == Visited(old(socket.edges), 0)
        invariant gone == Elements(visited) && scene.Pruned(start, old(scene.edges), gone)
        decreases |socket.edges| - i
      {
        VisitedNext(visited, socket.edges, i, Visited(old(socket.edges), 0));
        var e := scene.DropListed(socket, i, start, old(scene.edges), gone);
        ElementsAppend(visited, e);
        visited := visited + [e];
        gone := gone + {e};
        i := i + 1;
      }
    }

    /** One pass of the socket loop of `remove` as written, against the lists
        the scene started with: the pass walks what is left of the socket's
        list after the edges in `gone`, and what it reaches leaves every list
        and the scene's. */
    method SweepSocket(socket: Socket, ghost start: map<Socket, seq<Edge>>, ghost edges0: seq<Edge>, ghost gone: set<Edge>)
      returns (visited: seq<Edge>)
      requires scene.Valid() && socket in scene.SocketSet && scene.Pruned(start, edges0, gone)
      modifies scene`edges, scene.bindings, scene.EdgeSet, scene.SocketSet
      ensures scene.Valid() && visited == Visited(Without(start[socket], gone), 0)
      ensures scene.Pruned(start, edges0, gone + Elements(visited))
    {
      visited := RemoveVisited(socket);
      forall s | s in scene.SocketSet
        ensures s.edges == Without(start[s], gone + Elements(visited))
      {
        WithoutTwice(start[s], gone, Elements(visited));
      }
    }

    /** `remove` as written: the inner loop of each socket reaches only the
        edges `RemoveVisited` describes, then the node leaves the scene's list. */
    method RemoveAsWritten() returns (removed: seq<Edge>)
      requires scene.Valid() && this in scene.NodeSet
      modifies scene`nodes, scene`edges, scene.bindings, scene.EdgeSet, scene.SocketSet
      ensures scene.Valid()
      ensures scene.nodes == Erase(old(scene.nodes), this)
      ensures removed == Sweeps(old(EdgeLists(inputs + outputs)), {})
      ensures forall e :: e in scene.edges <==> e in old(scene.edges) && e !in removed
      ensures forall s :: s in scene.SocketSet ==> s.edges == Without(old(s.edges), Elements(removed))
    {
      ghost var start := map s | s in scene.SocketSet :: s.edges;
      forall s | s in scene.SocketSet
        ensures s.edges == Without(start[s], {})
      {
        WithoutNothing(s.edges);
      }
      removed := SweepSockets(start, scene.edges);
      LeaveScene();
    }

    /** The socket loop of `remove` as written: each socket's inner loop
        walks what earlier passes left of its list. */
    method SweepSockets(ghost start: map<Socket, seq<Edge>>, ghost edges0: seq<Edge>) returns (removed: seq<Edge>)
      requires scene.Valid() && this in scene.NodeSet && scene.Pruned(start, edges0, {})
      modifies scene`edges, scene.bindings, scene.EdgeSet, scene.SocketSet
      ensures scene.Valid() && removed == Sweeps(old(EdgeLists(inputs + outputs)), {})
      ensures scene.Pruned(start, edges0, Elements(removed))
    {
      var sockets := inputs + outputs;
      assert forall j :: 0 <= j < |sockets| ==> sockets[j] in scene.SocketSet;
      ghost var lists := EdgeLists(sockets);
      forall j | 0 <= j < |sockets|
        ensures start[sockets[j]] == lists[j]
      {
        WithoutNothing(start[sockets[j]]);
      }
      var k := 0;
      removed := [];
      ghost var gone: set<Edge> := {};
      assert Elements(removed) == gone && lists[k..] == lists;
      while k < |sockets|
        invariant 0 <= k <= |sockets|
        invariant scene.Valid()
        invariant gone == Elements(removed) && scene.Pruned(start, edges0, gone)
        invariant removed + Sweeps(lists[k..], gone) == Sweeps(lists, {})
      {
        var visited := SweepSocket(sockets[k], start, edges0, gone);
        SweepsNext(lists, k, removed, visited);
        ElementsConcat(removed, visited);
        removed := removed + visited;
        gone := gone + Elements(visited);
        k := k + 1;
      }
      assert lists[k..] == [];
    }

    /** `serialize`: the node's record, sockets in list order. The content
        record holds only the content's id. */
    function Doc(): NodeRecord
      reads this`id, this`title, this`posX, this`posY, this`inputs, this`outputs
    {
      NodeRecord(id, title, posX, posY, contentId, SocketDocs(inputs), SocketDocs(outputs))
    }

    /** `serialize`, with its two append loops. */
    method Serialize() returns (r: NodeRecord)
      ensures r == Doc()
    {
      var ins: seq<SocketRecord> := [];
      for k := 0 to |inputs|
        invariant ins == SocketDocs(inputs[..k])
      {
        assert inputs[..k + 1][..k] == inputs[..k];
        ins := ins + [inputs[k].Doc()];
      }
      var outs: seq<SocketRecord> := [];
      for k := 0 to |outputs|
        invariant outs == SocketDocs(outputs[..k])
      {
        assert outputs[..k + 1][..k] == outputs[..k];
        outs := outs + [outputs[k].Doc()];
      }
      assert inputs[..|inputs|] == inputs && outputs[..|outputs|] == outputs;
      r := NodeRecord(id, title, posX, posY, contentId, ins, outs);
    }

    /** `deserialize`: the id comes from the record only with `restore`; the
        node is entered in the id table under the record's id; title and
        position are taken over; the socket lists are rebuilt from the
        records sorted by `index + position * 10000`, inputs as single-edge
        and outputs as multi-edge sockets, each then deserialized from its
        record. With `restore` the node serializes back to its record with
        the sockets sorted; only the content id is the node's own. */
    method Deserialize(data: NodeRecord, hashmap: HashMap, restore: bool, ghost others: seq<Node>) returns (h: HashMap)
      requires scene.Sound() && this in scene.NodeSet && this !in others
      modifies this`id, this`title, this`posX, this`posY, this`inputs, this`outputs
      modifies scene`SocketSet, scene.bindings, scene.ids
      ensures scene.Sound() && NodeLoaded(Doc(), data, restore) && (!restore ==> id == old(id))
      ensures scene.SocketSet == old(scene.SocketSet) + Elements(inputs + outputs)
      ensures fresh(scene.SocketSet - old(scene.SocketSet))
      ensures h == Entered(hashmap, this, data, inputs, outputs)
      ensures unchanged(others)
    {
      SetHeader(data, restore);
      h := hashmap[data.id := NodeEntry(this)];
      h := LoadSockets(SortBy(data.inputs, SocketKey), SortBy(data.outputs, SocketKey), h, restore);
    }

    /** The header part of `deserialize`: the id only with `restore`, the
        title and the position always. */
    method SetHeader(data: NodeRecord, restore: bool)
      requires scene.Valid() && this in scene.NodeSet
      modifies this`id, this`title, this`posX, this`posY
      ensures scene.Valid()
      ensures id == (if restore then data.id else old(id))
      ensures title == data.title && posX == data.posX && posY == data.posY
    {
      if restore {
        id := data.id;
      }
      title := data.title;
      posX, posY := data.posX, data.posY;
    }

    /** `setPos`: the node's widget moves to the given point, which is what
        the node's position reads back. */
    method SetPos(x: real, y: real)
      requires scene.Sound() && this in scene.NodeSet
      modifies this`posX, this`posY
      ensures scene.Sound() && posX == x && posY == y
    {
      posX, posY := x, y;
    }

    /** `setMode`: the node passes the mode on to its scene. */
    method SetMode(mode: Mode)
      requires scene.Valid()
      modifies scene`mode
      ensures scene.Valid() && scene.mode == mode
    {
      scene.mode := mode;
    }

    /** The socket part of `deserialize`: both lists emptied, then rebuilt
        from the (sorted) records. */
    method LoadSockets(ins: seq<SocketRecord>, outs: seq<SocketRecord>, hashmap: HashMap, restore: bool) returns (h: HashMap)
      requires scene.Valid() && this in scene.NodeSet
      modifies this`inputs, this`outputs, scene`SocketSet, scene.bindings, scene.ids
      ensures scene.Valid()
      ensures Restamped(SocketDocs(inputs), ins, restore) && Restamped(SocketDocs(outputs), outs, restore)
      ensures scene.SocketSet == old(scene.SocketSet) + Elements(inputs + outputs)
      ensures fresh(scene.SocketSet - old(scene.SocketSet))
      ensures h == Enter(Enter(hashmap, ins, inputs), outs, outputs)
    {
      inputs, outputs := [], [];
      h := LoadInputs(ins, hashmap, restore);
      h := LoadOutputs(outs, h, restore);
      assert Elements(inputs + outputs) == Elements(inputs) + Elements(outputs);
    }

    /** The input loop of `deserialize`. */
    method LoadInputs(recs: seq<SocketRecord>, hashmap: HashMap, restore: bool) returns (h: HashMap)
      requires scene.Valid() && this in scene.NodeSet && inputs == []
      modifies this`inputs, scene`SocketSet, scene.bindings, scene.ids
      ensures scene.Valid() && Restamped(SocketDocs(inputs), recs, restore)
      ensures scene.SocketSet == old(scene.SocketSet) + Elements(inputs)
      ensures fresh(scene.SocketSet - old(scene.SocketSet))
      ensures h == Enter(hashmap, recs, inputs)
    {
      h := hashmap;
      for k := 0 to |recs|
        invariant scene.Valid() && this in scene.NodeSet && |inputs| == k
        invariant Restamped(SocketDocs(inputs), recs[..k], restore)
        invariant scene.SocketSet == old(scene.SocketSet) + Elements(inputs)
        invariant fresh(scene.SocketSet - old(scene.SocketSet))
        invariant h == Enter(hashmap, recs[..k], inputs)
      {
        ghost var before, next := inputs, scene.ids.next;
        RestampedAppend(SocketDocs(inputs), recs[..k], restore, recs[k], next);
        h := LoadInput(recs[k], h, restore);
        TakeNext(recs, k);
        assert inputs[..k] == before;
        ElementsAppend(before, inputs[k]);
      }
      assert recs[..|recs|] == recs;
    }

    /** The output loop of `deserialize`. */
    method LoadOutputs(recs: seq<SocketRecord>, hashmap: HashMap, restore: bool) returns (h: HashMap)
      requires scene.Valid() && this in scene.NodeSet && outputs == []
      modifies this`outputs, scene`SocketSet, scene.bindings, scene.ids
      ensures scene.Valid() && Restamped(SocketDocs(outputs), recs, restore)
      ensures scene.SocketSet == old(scene.SocketSet) + Elements(outputs)
      ensures fresh(scene.SocketSet - old(scene.SocketSet))
      ensures h == Enter(hashmap, recs, outputs)
    {
      h := hashmap;
      for k := 0 to |recs|
        invariant scene.Valid() && this in scene.NodeSet && |outputs| == k
        invariant Restamped(SocketDocs(outputs), recs[..k], restore)
        invariant scene.SocketSet == old(scene.SocketSet) + Elements(outputs)
        invariant fresh(scene.SocketSet - old(scene.SocketSet))
        invariant h == Enter(hashmap, recs[..k], outputs)
      {
        ghost var before, next := outputs, scene.ids.next;
        RestampedAppend(SocketDocs(outputs), recs[..k], restore, recs[k], next);
        h := LoadOutput(recs[k], h, restore);
        TakeNext(recs, k);
        assert outputs[..k] == before;
        ElementsAppend(before, outputs[k]);
      }
      assert recs[..|recs|] == recs;
    }

    /** One step of the input loop of `deserialize`: a new single-edge
        socket with the record's index, position and type, deserialized
        from the record and appended to the inputs. */
    method LoadInput(rec: SocketRecord, hashmap: HashMap, restore: bool) returns (h: HashMap)
      requires scene.Valid() && this in scene.NodeSet
      modifies this`inputs, scene`SocketSet, scene.bindings, scene.ids
      ensures scene.Valid() && |inputs| == |old(inputs)| + 1 && inputs == old(inputs) + [inputs[|old(inputs)|]]
      ensures SocketDocs(inputs) == old(SocketDocs(inputs)) + [rec.(id := if restore then rec.id else old(scene.ids.next))]
      ensures scene.SocketSet == old(scene.SocketSet) + {inputs[|old(inputs)|]} && fresh(inputs[|old(inputs)|])
      ensures h == hashmap[rec.id := SocketEntry(inputs[|old(inputs)|])]
    {
      var sid := scene.ids.Fresh();
      var socket := new Socket.Deserialized(this, sid, rec, restore);
      h := hashmap[rec.id := SocketEntry(socket)];
      AdoptInput(socket);
      SocketDocsAppend(old(inputs), socket);
    }

    /** One step of the output loop of `deserialize`, with a multi-edge socket. */
    method LoadOutput(rec: SocketRecord, hashmap: HashMap, restore: bool) returns (h: HashMap)
      requires scene.Valid() && this in scene.NodeSet
      modifies this`outputs, scene`SocketSet, scene.bindings, scene.ids
      ensures scene.Valid() && |outputs| == |old(outputs)| + 1 && outputs == old(outputs) + [outputs[|old(outputs)|]]
      ensures SocketDocs(outputs) == old(SocketDocs(outputs)) + [rec.(id := if restore then rec.id else old(scene.ids.next))]
      ensures scene.SocketSet == old(scene.SocketSet) + {outputs[|old(outputs)|]} && fresh(outputs[|old(outputs)|])
      ensures h == hashmap[rec.id := SocketEntry(outputs[|old(outputs)|])]
    {
      var sid := scene.ids.Fresh();
      var socket := new Socket.Deserialized(this, sid, rec, restore);
      h := hashmap[rec.id := SocketEntry(socket)];
      AdoptOutput(socket);
      SocketDocsAppend(old(outputs), socket);
    }

    /** Enters a new socket of this node, with no edges yet, into the socket
        arena and appends it to the inputs. */
    method AdoptInput(socket: Socket)
      requires scene.Valid() && this in scene.NodeSet
      requires socket !in scene.SocketSet && socket.node == this && socket.edges == []
      modifies this`inputs, scene`SocketSet, scene.bindings
      ensures scene.Valid() && inputs == old(inputs) + [socket]
      ensures scene.SocketSet == old(scene.SocketSet) + {socket}
    {
      AddSocketConsistent(scene.SocketSet, scene.EdgeSet, scene.bindings.listed, scene.bindings.ends, socket);
      scene.SocketSet := scene.SocketSet + {socket};
      scene.bindings.listed := scene.bindings.listed[socket := []];
      inputs := inputs + [socket];
    }

    /** Enters a new socket of this node, with no edges yet, into the socket
        arena and appends it to the outputs. */
    method AdoptOutput(socket: Socket)
      requires scene.Valid() && this in scene.NodeSet
      requires socket !in scene.SocketSet && socket.node == this && socket.edges == []
      modifies this`outputs, scene`SocketSet, scene.bindings
      ensures scene.Valid() && outputs == old(outputs) + [socket]
      ensures scene.SocketSet == old(scene.SocketSet) + {socket}
    {
      AddSocketConsistent(scene.SocketSet, scene.EdgeSet, scene.bindings.listed, scene.bindings.ends, socket);
      scene.SocketSet := scene.SocketSet + {socket};
      scene.bindings.listed := scene.bindings.listed[socket := []];
      outputs := outputs + [socket];
    }

    /** `self.inputs.append(socket)` for a socket already in the arena. */
    method AppendInput(socket: Socket)
      requires scene.Valid() && this in scene.NodeSet && socket in scene.SocketSet
      modifies this`inputs
      ensures scene.Valid() && inputs == old(inputs) + [socket]
    {
      inputs := inputs + [socket];
    }

    /** `self.outputs.append(socket)` for a socket already in the arena. */
    method AppendOutput(socket: Socket)
      requires scene.Valid() && this in scene.NodeSet && socket in scene.SocketSet
      modifies this`outputs
      ensures scene.Valid() && outputs == old(outputs) + [socket]
    {
      outputs := outputs + [socket];
    }

    /** `Socket(node, index, position, type, multi_edges)`: a socket of this
        node with a fresh id and no edges, entered in the socket arena. */
    method NewSocket(index: int, position: int, socketType: int, multiEdges: bool) returns (socket: Socket)
      requires scene.Valid() && this in scene.NodeSet
      modifies scene`SocketSet, scene.bindings, scene.ids
      ensures scene.Valid() && fresh(socket) && scene.SocketSet == old(scene.SocketSet) + {socket}
      ensures socket.node == this && socket.id == old(scene.ids.next) && socket.edges == []
      ensures socket.index == index && socket.position == position
      ensures socket.socketType == socketType && socket.multiEdges == multiEdges
    {
      var sid := scene.ids.Fresh();
      socket := new Socket(this, sid, index, position, socketType, multiEdges);
      AddSocketConsistent(scene.SocketSet, scene.EdgeSet, scene.bindings.listed, scene.bindings.ends, socket);
      scene.SocketSet := scene.SocketSet + {socket};
      scene.bindings.listed := scene.bindings.listed[socket := []];
    }
  }

  /** The sockets `_init_sockets` lays out on one side: indices counting up
      from 0, one per requested type, all at `position`. */
  predicate Laid(ss: seq<Socket>, types: seq<int>, position: int, multi: bool)
    reads ss
  {
    |ss| == |types| &&
    forall k :: 0 <= k < |ss| ==>
      ss[k].index == k && ss[k].position == position && ss[k].socketType == types[k] && ss[k].multiEdges == multi
  }

  class Socket {
    const node: Node
    const id: int
    const index: int
    const position: int
    const socketType: int
    const multiEdges: bool
    var edges: seq<Edge>

    constructor(node: Node, id: int, index: int, position: int, socketType: int, multiEdges: bool)
      ensures this.node == node && this.id == id && this.index == index && this.position == position
      ensures this.socketType == socketType && this.multiEdges == multiEdges && edges == []
    {
      this.node := node;
      this.id := id;
      this.index := index;
      this.position := position;
      this.socketType := socketType;
      this.multiEdges := multiEdges;
      edges := [];
    }

    method AddEdge(e: Edge)
      modifies this`edges
      ensures edges == old(edges) + [e]
    {
      edges := edges + [e];
    }

    /** Drops the first listing; an absent edge is only logged (`found` false). */
    method RemoveEdge(e: Edge) returns (found: bool)
      modifies this`edges
      ensures found == (e in old(edges))
      ensures edges == Erase(old(edges), e)
    {
      found := e in edges;
      if found {
        edges := Erase(edges, e);
      }
    }

    /** `removeEdges`: while the list is not empty, its first edge is popped
        and removed. Popping takes the first listing, which the unbinding
        would otherwise erase itself, so the model lets the unbinding erase
        it: the list ends the same. `scene` is the scene every edge of the
        list belongs to, which `edge.remove()` reaches as `edge.scene`. */
    method RemoveEdges(scene: Scene)
      requires scene.Valid() && this in scene.SocketSet
      modifies scene`edges, scene.bindings, scene.EdgeSet, scene.SocketSet
      ensures scene.Valid() && edges == []
      ensures forall e :: e in scene.edges <==> e in old(scene.edges) && e !in old(edges)
      ensures forall s :: s in scene.SocketSet ==> s.edges == Without(old(s.edges), Elements(old(edges)))
    {
      ghost var gone: set<Edge> := {};
      forall s | s in scene.SocketSet
        ensures s.edges == Without(s.edges, gone)
      {
        WithoutNothing(s.edges);
      }
      while edges != []
        invariant scene.Valid() && this in scene.SocketSet
        invariant gone <= Elements(old(edges))
        invariant forall s :: s in scene.SocketSet ==> s.edges == Without(old(s.edges), gone)
        invariant forall e :: e in scene.edges <==> e in old(scene.edges) && e !in gone
        decreases |edges|
      {
        label before:
        var e := scene.RemoveListed(this, 0);
        WithoutMembers(old(edges), gone);
        forall s | s in scene.SocketSet
          ensures s.edges == Without(old(s.edges), gone + {e})
        {
          RemoveAllWithout(old@before(s.edges), e);
          WithoutTwice(old(s.edges), gone, {e});
        }
        gone := gone + {e};
      }
      WithoutMembers(old(edges), gone);
      assert gone == Elements(old(edges));
    }

    /** `serialize`: the socket's record. */
    function Doc(): SocketRecord
    {
      SocketRecord(id, index, position, socketType, multiEdges)
    }

    /** `Socket(node, index, position, type, multi_edges)` immediately
        followed by `deserialize(data, hashmap, restore)`, the only way the
        core deserializes a socket: index, position and type come from the
        record, the id from the record only with `restore` (otherwise it is
        the fresh `id`), `multi_edges` always. */
    constructor Deserialized(node: Node, id: int, data: SocketRecord, restore: bool)
      ensures this.node == node && edges == []
      ensures Doc() == data.(id := if restore then data.id else id)
    {
      this.node := node;
      this.id := if restore then data.id else id;
      this.index := data.index;
      this.position := data.position;
      this.socketType := data.socketType;
      this.multiEdges := data.multiEdges;
      edges := [];
    }

    /** Where the socket sits on its node. */
    function GetPosition(): (p: Point)
    {
      SocketPosition(DEFAULT_GEOMETRY, index, position)
    }

    /** Where the socket sits in the scene: its place on the node moved by the node's position. */
    function ScenePosition(): (p: Point)
      reads node
    {
      Translate(GetPosition(), node.posX, node.posY)
    }
  }

  class Edge {
    const scene: Scene
    var id: int
    var start: Socket?
    var end: Socket?
    var edgeType: int

    /** `Edge(scene, start, end, edge_type)`: appended to the scene's edges,
        then both ends assigned through the setters. */
    constructor(scene: Scene, start: Socket?, end: Socket?, edgeType: int)
      requires scene.Valid()
      requires start != null ==> start in scene.SocketSet
      requires end != null ==> end in scene.SocketSet
      modifies scene`edges, scene`EdgeSet, scene.bindings, scene.ids, {start, end}`edges
      ensures scene.Valid() && this.scene == scene && id == old(scene.ids.next)
      ensures this.start == start && this.end == end && this.edgeType == edgeType
      ensures scene.edges == old(scene.edges) + [this] && scene.EdgeSet == old(scene.EdgeSet) + {this}
      ensures forall s :: s in scene.SocketSet ==>
                s.edges == old(s.edges) + (if s == start then [this] else []) + (if s == end then [this] else [])
    {
      this.scene := scene;
      var eid := scene.ids.Fresh();
      id := eid;
      this.start, this.end := null, null;
      this.edgeType := edgeType;
      new;
      Register();
      Attach(start, end);
    }

    /** The two setter calls of the constructor, which find no previous end to release. */
    method Attach(a: Socket?, b: Socket?)
      requires scene.Valid() && this in scene.EdgeSet && start == null && end == null
      requires a != null ==> a in scene.SocketSet
      requires b != null ==> b in scene.SocketSet
      modifies this`start, this`end, {a, b}`edges, scene.bindings
      ensures scene.Valid() && start == a && end == b
      ensures forall s :: s in scene.SocketSet ==>
                s.edges == old(s.edges) + (if s == a then [this] else []) + (if s == b then [this] else [])
    {
      BindStart(a);
      BindEnd(b);
    }

    /** `scene.addEdge(self)` for a new edge with no ends yet, which also
        enters it in the edge arena. */
    method Register()
      requires scene.Valid() && this !in scene.EdgeSet && start == null && end == null
      modifies scene`edges, scene`EdgeSet, scene.bindings
      ensures scene.Valid()
      ensures scene.edges == old(scene.edges) + [this] && scene.EdgeSet == old(scene.EdgeSet) + {this}
    {
      scene.AddEdge(this);
      AppendNoDup(old(scene.edges), this);
      AddEdgeConsistent(scene.SocketSet, scene.EdgeSet, scene.bindings.listed, scene.bindings.ends, this);
      scene.EdgeSet := scene.EdgeSet + {this};
      scene.bindings.ends := scene.bindings.ends[this := (null, null)];
    }

    /** Assigning `start_socket`: the edge leaves the old socket's list and is
        appended to the new one's, so lists and endpoints keep agreeing. */
    method SetStart(v: Socket?)
      requires scene.Valid() && this in scene.EdgeSet
      requires v != null ==> v in scene.SocketSet
      modifies this`start, {start, v}`edges, scene.bindings
      ensures scene.Valid()
      ensures start == v
      ensures forall s :: s in scene.SocketSet ==> s.edges == Rebind(old(s.edges), this, s, old(start), v)
    {
      ReleaseStart();
      BindStart(v);
    }

    method ReleaseStart()
      requires scene.Valid() && this in scene.EdgeSet
      modifies this`start, {start}`edges, scene.bindings
      ensures scene.Valid()
      ensures start == null
      ensures forall s :: s in scene.SocketSet ==> s.edges == if s == old(start) then Erase(old(s.edges), this) else old(s.edges)
    {
      if start != null {
        DetachConsistent(scene.SocketSet, scene.EdgeSet, scene.bindings.listed, scene.bindings.ends, this, start, (null, end));
        var found := start.RemoveEdge(this);
        scene.bindings.listed := scene.bindings.listed[start := Erase(scene.bindings.listed[start], this)];
        scene.bindings.ends := scene.bindings.ends[this := (null, end)];
        start := null;
      }
    }

    method BindStart(v: Socket?)
      requires scene.Valid() && this in scene.EdgeSet && start == null
      requires v != null ==> v in scene.SocketSet
      modifies this`start, {v}`edges, scene.bindings
      ensures scene.Valid()
      ensures start == v
      ensures forall s :: s in scene.SocketSet ==> s.edges == if s == v then old(s.edges) + [this] else old(s.edges)
    {
      start := v;
      if v != null {
        AttachConsistent(scene.SocketSet, scene.EdgeSet, scene.bindings.listed, scene.bindings.ends, this, v, (v, end));
        v.AddEdge(this);
        scene.bindings.listed := scene.bindings.listed[v := scene.bindings.listed[v] + [this]];
        scene.bindings.ends := scene.bindings.ends[this := (v, end)];
      }
    }

    /** Assigning `end_socket`, symmetrically. */
    method SetEnd(v: Socket?)
      requires scene.Valid() && this in scene.EdgeSet
      requires v != null ==> v in scene.SocketSet
      modifies this`end, {end, v}`edges, scene.bindings
      ensures scene.Valid()
      ensures end == v
      ensures forall s :: s in scene.SocketSet ==> s.edges == Rebind(old(s.edges), this, s, old(end), v)
    {
      ReleaseEnd();
      BindEnd(v);
    }

    method ReleaseEnd()
      requires scene.Valid() && this in scene.EdgeSet
      modifies this`end, {end}`edges, scene.bindings
      ensures scene.Valid()
      ensures end == null
      ensures forall s :: s in scene.SocketSet ==> s.edges == if s == old(end) then Erase(old(s.edges), this) else old(s.edges)
    {
      if end != null {
        DetachConsistent(scene.SocketSet, scene.EdgeSet, scene.bindings.listed, scene.bindings.ends, this, end, (start, null));
        var found := end.RemoveEdge(this);
        scene.bindings.listed := scene.bindings.listed[end := Erase(scene.bindings.listed[end], this)];
        scene.bindings.ends := scene.bindings.ends[this := (start, null)];
        end := null;
      }
    }

    method BindEnd(v: Socket?)
      requires scene.Valid() && this in scene.EdgeSet && end == null
      requires v != null ==> v in scene.SocketSet
      modifies this`end, {v}`edges, scene.bindings
      ensures scene.Valid()
      ensures end == v
      ensures forall s :: s in scene.SocketSet ==> s.edges == if s == v then old(s.edges) + [this] else old(s.edges)
    {
      end := v;
      if v != null {
        AttachConsistent(scene.SocketSet, scene.EdgeSet, scene.bindings.listed, scene.bindings.ends, this, v, (start, v));
        v.AddEdge(this);
        scene.bindings.listed := scene.bindings.listed[v := scene.bindings.listed[v] + [this]];
        scene.bindings.ends := scene.bindings.ends[this := (start, v)];
      }
    }

    /** `unbindAll`: both ends set to None through the setters, so every
        socket's list loses every listing of the edge and keeps the rest in order. */
    method UnbindAll()
      requires scene.Valid() && this in scene.EdgeSet
      modifies this`start, this`end, {start, end}`edges, scene.bindings
      ensures scene.Valid() && start == null && end == null
      ensures forall s :: s in scene.SocketSet ==> s.edges == RemoveAll(old(s.edges), this)
    {
      assert forall s :: s in scene.SocketSet ==> Count(s.edges, this) == EndsOf((start, end), s);
      SetStart(null);
      SetEnd(null);
      forall s | s in scene.SocketSet
        ensures s.edges == RemoveAll(old(s.edges), this)
      {
        UnbindDropsAll(old(s.edges), this, s, old(start), old(end));
      }
    }

    /** `remove`: unbinds the edge, then drops it from the scene's list (an
        edge that is not there is only logged). A second call finds nothing
        left to change. */
    method Remove()
      requires scene.Valid() && this in scene.EdgeSet
      modifies this`start, this`end, {start, end}`edges, scene.bindings, scene`edges
      ensures scene.Valid() && start == null && end == null
      ensures forall s :: s in scene.SocketSet ==> s.edges == RemoveAll(old(s.edges), this)
      ensures scene.edges == Erase(old(scene.edges), this) && this !in scene.edges
      ensures old(start) == null && old(end) == null && this !in old(scene.edges) ==>
                scene.edges == old(scene.edges) && forall s :: s in scene.SocketSet ==> s.edges == old(s.edges)
    {
      ghost var wasDetached := start == null && end == null;
      if wasDetached {
        forall s | s in scene.SocketSet
          ensures RemoveAll(s.edges, this) == s.edges
        {
          scene.Agreement(s, this);
          RemoveAllAbsent(s.edges, this);
        }
      }
      UnbindAll();
      var found := scene.RemoveEdge(this);
      EraseNoDup(old(scene.edges), this);
    }

    /** `edge_type = t`. The setter also redraws the edge, which is not modelled. */
    method SetEdgeType(t: int)
      requires scene.Valid() && this in scene.EdgeSet
      modifies this`edgeType
      ensures scene.Valid() && edgeType == t
    {
      edgeType := t;
    }

    /** `serialize`: the record names the two ends by their ids. Reading the
        id of a missing end fails, so an edge with a missing end has no record. */
    function Doc(): (r: Option<EdgeRecord>)
      reads this`id, this`start, this`end, this`edgeType
      ensures r.Some? <==> start != null && end != null
      ensures r.Some? ==> r.value.id == id && r.value.start == start.id && r.value.end == end.id && r.value.edgeType == edgeType
    {
      if start != null && end != null then Some(EdgeRecord(id, start.id, end.id, edgeType)) else None
    }

    /** `updatePositions`: the source is the start socket's place in the
        scene, the destination the end socket's, or the source again while
        the edge dangles. `None` means the call does not set that point. */
    function Positions(): (r: (Option<Point>, Option<Point>))
      reads this`start, this`end
      reads if start != null then {start.node} else {}, if end != null then {end.node} else {}
      ensures r.0.Some? <==> start != null
      ensures start != null ==> r.0.value == start.ScenePosition()
      ensures end != null ==> r.1 == Some(end.ScenePosition())
      ensures end == null ==> r.1 == r.0
    {
      var source := if start != null then Some(start.ScenePosition()) else None;
      (source, if end != null then Some(end.ScenePosition()) else source)
    }

    /** `start_socket = hashmap[key]` in `deserialize`. A missing key fails
        before anything changes. A node under the key goes through the
        setter, which releases the old start, stores the node as the start
        and then raises AttributeError on `addEdge`, which a node lacks; an
        end here is a socket, so the model leaves the start unset. A socket
        is bound through the setter. */
    method ResolveStart(key: int, hashmap: HashMap) returns (ok: bool)
      requires scene.Valid() && this in scene.EdgeSet && SocketsIn(hashmap, scene.SocketSet)
      modifies this`start, scene.SocketSet, scene.bindings
      ensures scene.Valid() && ok == NamesSocket(hashmap, key) && end == old(end)
      ensures key !in hashmap ==> start == old(start) && forall s :: s in scene.SocketSet ==> s.edges == old(s.edges)
      ensures key in hashmap ==> start == (if ok then hashmap[key].socket else null)
      ensures key in hashmap ==> forall s :: s in scene.SocketSet ==> s.edges == Rebind(old(s.edges), this, s, old(start), start)
    {
      if key !in hashmap {
        return false;
      }
      match hashmap[key]
      case NodeEntry(_) =>
        ReleaseStart();
        ok := false;
      case SocketEntry(socket) =>
        SetStart(socket);
        ok := true;
    }

    /** `end_socket = hashmap[key]` in `deserialize`, symmetrically. */
    method ResolveEnd(key: int, hashmap: HashMap) returns (ok: bool)
      requires scene.Valid() && this in scene.EdgeSet && SocketsIn(hashmap, scene.SocketSet)
      modifies this`end, scene.SocketSet, scene.bindings
      ensures scene.Valid() && ok == NamesSocket(hashmap, key) && start == old(start)
      ensures key !in hashmap ==> end == old(end) && forall s :: s in scene.SocketSet ==> s.edges == old(s.edges)
      ensures key in hashmap ==> end == (if ok then hashmap[key].socket else null)
      ensures key in hashmap ==> forall s :: s in scene.SocketSet ==> s.edges == Rebind(old(s.edges), this, s, old(end), end)
    {
      if key !in hashmap {
        return false;
      }
      match hashmap[key]
      case NodeEntry(_) =>
        ReleaseEnd();
        ok := false;
      case SocketEntry(socket) =>
        SetEnd(socket);
        ok := true;
    }

    /** `deserialize`: the id comes from the record only with `restore`;
        the start, then the end, is looked up in the table and assigned
        through its setter, then the type is set. A failed lookup stops the
        rest (`ok` false); the ends it left behind are stated too. With
        `restore`, and a table whose sockets carry the ids they are entered
        under, a successful edge serializes back to its record. */
    method Deserialize(data: EdgeRecord, hashmap: HashMap, restore: bool) returns (ok: bool)
      requires scene.Valid() && this in scene.EdgeSet && SocketsIn(hashmap, scene.SocketSet)
      modifies this`id, this`start, this`end, this`edgeType, scene.SocketSet, scene.bindings
      ensures scene.Valid()
      ensures id == (if restore then data.id else old(id))
      ensures ok == (NamesSocket(hashmap, data.start) && NamesSocket(hashmap, data.end))
      ensures ok ==> start == hashmap[data.start].socket && end == hashmap[data.end].socket && edgeType == data.edgeType
      ensures !ok ==> edgeType == old(edgeType)
      ensures !NamesSocket(hashmap, data.start) ==>
                end == old(end) && start == (if data.start in hashmap then null else old(start))
      ensures NamesSocket(hashmap, data.start) && !ok ==>
                start == hashmap[data.start].socket && end == (if data.end in hashmap then null else old(end))
      ensures ok && restore && Keyed(hashmap) ==> Doc() == Some(data)
    {
      if restore {
        SetId(data.id);
      }
      ok := Relink(data, hashmap);
    }

    /** `self.id = v`. */
    method SetId(v: int)
      requires scene.Valid() && this in scene.EdgeSet
      modifies this`id
      ensures scene.Valid() && id == v
    {
      id := v;
    }

    /** The lookups and the type assignment of `deserialize`. */
    method Relink(data: EdgeRecord, hashmap: HashMap) returns (ok: bool)
      requires scene.Valid() && this in scene.EdgeSet && SocketsIn(hashmap, scene.SocketSet)
      modifies this`start, this`end, this`edgeType, scene.SocketSet, scene.bindings
      ensures scene.Valid()
      ensures ok == (NamesSocket(hashmap, data.start) && NamesSocket(hashmap, data.end))
      ensures ok ==> start == hashmap[data.start].socket && end == hashmap[data.end].socket && edgeType == data.edgeType
      ensures !ok ==> edgeType == old(edgeType)
      ensures !NamesSocket(hashmap, data.start) ==>
                end == old(end) && start == (if data.start in hashmap then null else old(start))
      ensures NamesSocket(hashmap, data.start) && !ok ==>
                start == hashmap[data.start].socket && end == (if data.end in hashmap then null else old(end))
    {
      ok := ResolveStart(data.start, hashmap);
      if ok {
        ok := RelinkEnd(data, hashmap);
      }
    }

    /** The end lookup and the type assignment of `deserialize`. */
    method RelinkEnd(data: EdgeRecord, hashmap: HashMap) returns (ok: bool)
      requires scene.Valid() && this in scene.EdgeSet && SocketsIn(hashmap, scene.SocketSet)
      modifies this`end, this`edgeType, scene.SocketSet, scene.bindings
      ensures scene.Valid() && start == old(start)
      ensures ok == NamesSocket(hashmap, data.end)
      ensures ok ==> end == hashmap[data.end].socket && edgeType == data.edgeType
      ensures !ok ==> edgeType == old(edgeType) && end == (if data.end in hashmap then null else old(end))
    {
      ok := ResolveEnd(data.end, hashmap);
      if ok {
        SetEdgeType(data.edgeType);
      }
    }
  }
}
