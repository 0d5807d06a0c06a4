/** The undo history of a scene (`node_editor/history/scene_history.py`),
    over the multi-edge scene: a stack of at most 32 stamps and a cursor
    into it. Storing cuts off every stamp after the cursor and, when the
    history is full, the oldest one; undo and redo move the cursor and
    load the scene from the stamp under it. */
module History {
  import opened Wrappers
  import opened Lists
  import opened Records
  import opened MultiEdgeGraph
  import opened Selection

  /** `history_limit`. */
  const HISTORY_LIMIT := 32

  /** A stamp: its description, the scene's record and the ids of the
      nodes and of the edges that were selected. */
  datatype Stamp = Stamp(description: string, snapshot: SceneRecord, selectedNodes: seq<int>, selectedEdges: seq<int>)

  /** The cursor names a stamp, or is -1 on an empty history, and the
      history is within its limit. */
  predicate Bounded(stack: seq<Stamp>, ptr: int)
  {
    -1 <= ptr < |stack| <= HISTORY_LIMIT
  }

  /** The first two steps of `store`: the stamps after the cursor go, and
      when the cursor is at the limit the oldest stamp goes too. What is
      left is the history up to the cursor, less its oldest stamp when it
      was full, and the cursor names its last stamp. */
  function Room(stack: seq<Stamp>, ptr: int): (r: (seq<Stamp>, int))
    requires Bounded(stack, ptr)
    ensures r.0 == stack[(if ptr + 1 >= HISTORY_LIMIT then 1 else 0)..ptr + 1]
    ensures r.1 == |r.0| - 1 && |r.0| < HISTORY_LIMIT
  {
    var kept := if ptr + 1 < |stack| then stack[..ptr + 1] else stack;
    if ptr + 1 >= HISTORY_LIMIT then (kept[1..], ptr - 1) else (kept, ptr)
  }

  /** `store` with the stamp it creates: room is made, the stamp goes on top
      and the cursor names it, so there is nothing left to redo. */
  function Pushed(stack: seq<Stamp>, ptr: int, stamp: Stamp): (r: (seq<Stamp>, int))
    requires Bounded(stack, ptr)
    ensures Bounded(r.0, r.1) && 0 <= r.1 == |r.0| - 1 && r.0[r.1] == stamp
    ensures r.0[..r.1] == stack[(if ptr + 1 >= HISTORY_LIMIT then 1 else 0)..ptr + 1]
    ensures Redone(r.1, |r.0|) == r.1
  {
    var room := Room(stack, ptr);
    (room.0 + [stamp], room.1 + 1)
  }

  /** The cursor after `undo`: one back, unless it is at the first stamp or
      the history is empty. */
  function Undone(ptr: int): int
  {
    if ptr > 0 then ptr - 1 else ptr
  }

  /** The cursor after `redo`: one on, unless it is at the last stamp. */
  function Redone(ptr: int, size: nat): int
  {
    if ptr + 1 < size then ptr + 1 else ptr
  }

  /** Undo then redo comes back to the same stamp, and so does redo then
      undo; at the ends the moves are no-ops and keep the cursor in range. */
  lemma UndoRedoInverse(stack: seq<Stamp>, ptr: int)
    requires Bounded(stack, ptr)
    ensures Bounded(stack, Undone(ptr)) && Bounded(stack, Redone(ptr, |stack|))
    ensures ptr > 0 ==> Redone(Undone(ptr), |stack|) == ptr
    ensures ptr + 1 < |stack| && ptr >= 0 ==> Undone(Redone(ptr, |stack|)) == ptr
    ensures ptr <= 0 ==> Undone(ptr) == ptr
    ensures ptr + 1 >= |stack| ==> Redone(ptr, |stack|) == ptr
  {
  }

  /** Storing after an undo throws away the undone stamp: redo is then a no-op. */
  lemma UndoThenStoreRedoIsNoop(stack: seq<Stamp>, ptr: int, stamp: Stamp)
    requires Bounded(stack, ptr) && ptr > 0
    ensures var r := Pushed(stack, Undone(ptr), stamp);
            |r.0| == ptr + 1 && Redone(r.1, |r.0|) == r.1
  {
  }

  /** A run of stores, in order, from a given history. */
  function Stores(stack: seq<Stamp>, ptr: int, stamps: seq<Stamp>): (r: (seq<Stamp>, int))
    requires Bounded(stack, ptr)
    ensures Bounded(r.0, r.1)
  {
    if stamps == [] then (stack, ptr)
    else
      var before := Stores(stack, ptr, stamps[..|stamps| - 1]);
      Pushed(before.0, before.1, stamps[|stamps| - 1])
  }

  function Min(a: int, b: int): int
  {
    if a < b then a else b
  }

  /** From a new history, a run of stores keeps exactly the most recent
      `HISTORY_LIMIT` stamps, in order, with the cursor on the last. */
  lemma {:induction false} StoresKeepRecent(stamps: seq<Stamp>)
    ensures var r := Stores([], -1, stamps);
            r.0 == stamps[|stamps| - Min(|stamps|, HISTORY_LIMIT)..] && r.1 == |r.0| - 1
  {
    if stamps != [] {
      var n := |stamps| - 1;
      var init, last := stamps[..n], stamps[n];
      StoresKeepRecent(init);
      PushRecent(init, last);
      assert stamps == init + [last];
    }
  }

  /** One store on a history that holds the most recent stamps of `init`
      leaves the most recent stamps of `init` and then `last`. */
  lemma PushRecent(init: seq<Stamp>, last: Stamp)
    ensures var before := init[|init| - Min(|init|, HISTORY_LIMIT)..];
            Bounded(before, |before| - 1) &&
            Pushed(before, |before| - 1, last).0 == (init + [last])[|init| + 1 - Min(|init| + 1, HISTORY_LIMIT)..]
  {
    var n := |init|;
    var before := init[n - Min(n, HISTORY_LIMIT)..];
    var r := Pushed(before, |before| - 1, last);
    assert r.0 == r.0[..r.1] + [last];
    if n < HISTORY_LIMIT {
      assert before == init;
    } else {
      assert r.0[..r.1] == init[n - HISTORY_LIMIT + 1..];
      assert (init + [last])[n + 1 - HISTORY_LIMIT..] == init[n - HISTORY_LIMIT + 1..] + [last];
    }
  }

  /** Forty stores on a new history leave thirty-two stamps. */
  lemma FortyStoresLeaveThirtyTwo(stamps: seq<Stamp>)
    requires |stamps| == 40
    ensures |Stores([], -1, stamps).0| == 32
    ensures Stores([], -1, stamps).0 == stamps[8..]
  {
    StoresKeepRecent(stamps);
  }

  /** The flag each widget ends with after a run of `selected = …`
      assignments: the last assignment to it wins; a widget never
      assigned keeps whatever it had. */
  function Flags<T>(marks: seq<(T, bool)>): map<T, bool>
  {
    if marks == [] then map[]
    else
      var last := marks[|marks| - 1];
      Flags(marks[..|marks| - 1])[last.0 := last.1]
  }

  lemma FlagsAppend<T>(marks: seq<(T, bool)>, m: (T, bool))
    ensures Flags(marks + [m]) == Flags(marks)[m.0 := m.1]
  {
    assert (marks + [m])[..|marks|] == marks;
  }

  /** The assignments of one selection loop of `restoreStamp` as written:
      because of the `break`, every selected id is compared with the first
      item only, and that item alone is assigned, once per id. */
  function FirstOnly<T>(first: T, firstId: int, ids: seq<int>): (r: seq<(T, bool)>)
    ensures |r| == |ids|
  {
    if ids == [] then []
    else FirstOnly(first, firstId, ids[..|ids| - 1]) + [(first, ids[|ids| - 1] == firstId)]
  }

  /** As written, only the first item ends with a flag, and that flag says
      whether the last selected id is its id. */
  lemma {:induction false} FirstOnlyFlags<T>(first: T, firstId: int, ids: seq<int>)
    ensures Flags(FirstOnly(first, firstId, ids)) == if ids == [] then map[] else map[first := ids[|ids| - 1] == firstId]
  {
    if ids != [] {
      var init := ids[..|ids| - 1];
      FirstOnlyFlags(first, firstId, init);
      FlagsAppend(FirstOnly(first, firstId, init), (first, ids[|ids| - 1] == firstId));
    }
  }

  /** The assignments the selection loops of `restoreStamp` are evidently
      meant to make: each item, in order, is selected exactly when its id
      was recorded. */
  function Reselected<T>(items: seq<T>, itemIds: seq<int>, ids: seq<int>): (r: seq<(T, bool)>)
    requires |items| == |itemIds|
    ensures |r| == |items|
  {
    if items == [] then []
    else
      var n := |items| - 1;
      Reselected(items[..n], itemIds[..n], ids) + [(items[n], itemIds[n] in ids)]
  }

  /** Every item ends with a flag, and it is set exactly when the item's id
      was recorded. */
  lemma {:induction false} ReselectedFlags<T>(items: seq<T>, itemIds: seq<int>, ids: seq<int>)
    requires |items| == |itemIds| && NoDup(items)
    ensures forall k :: 0 <= k < |items| ==> items[k] in Flags(Reselected(items, itemIds, ids)) &&
                                              Flags(Reselected(items, itemIds, ids))[items[k]] == (itemIds[k] in ids)
    ensures forall x :: x in Flags(Reselected(items, itemIds, ids)) ==> x in items
  {
    if items != [] {
      var n := |items| - 1;
      ReselectedFlags(items[..n], itemIds[..n], ids);
      FlagsAppend(Reselected(items[..n], itemIds[..n], ids), (items[n], itemIds[n] in ids));
    }
  }

  /** Two selected edges with different ids: as written the first edge ends
      deselected and the second is never touched; the intended loop selects
      both. */
  lemma RestoreSelectionCounterexample<T>(a: T, b: T, idA: int, idB: int)
    requires a != b && idA != idB
    ensures Flags(FirstOnly(a, idA, [idA, idB])) == map[a := false]
    ensures Flags(Reselected([a, b], [idA, idB], [idA, idB])) == map[a := true, b := true]
  {
    FirstOnlyFlags(a, idA, [idA, idB]);
    assert [a, b][..1] == [a] && [idA, idB][..1] == [idA];
    FlagsAppend(Reselected([a], [idA], [idA, idB]), (b, true));
    assert Reselected([a], [idA], [idA, idB]) == [(a, true)];
    FlagsAppend([], (a, true));
  }

  /** The scene after `deserialize` with `restore`: unmodified, with the
      record's header, nodes that serialize back to the record's, and `ok`
      telling whether every edge record was read. */
  ghost predicate Reloaded(scene: Scene, rec: SceneRecord, ok: bool)
    reads scene, scene.nodes, scene.edges
  {
    var reloaded := !scene.modified && scene.id == rec.id && scene.width == rec.width && scene.height == rec.height &&
                    NodesLoaded(NodeDocs(scene.nodes), rec.nodes, true) && scene.EdgesRead(rec.nodes, rec.edges, true, ok);
    reloaded
  }

  /** The scene after `restoreStamp`: reloaded from the stamp's record, and
      after a full read the selection flags are those of the stamp. */
  ghost predicate Restored(scene: Scene, stamp: Stamp, ok: bool, edgeMarks: seq<(Edge, bool)>, nodeMarks: seq<(Node, bool)>)
    reads scene, scene.nodes, scene.edges
  {
    var restored := Reloaded(scene, stamp.snapshot, ok) &&
                    (ok ==> edgeMarks == Reselected(scene.edges, EdgeIdsIn(scene.edges), stamp.selectedEdges) &&
                            nodeMarks == Reselected(scene.nodes, NodeIdsIn(scene.nodes), stamp.selectedNodes)) &&
                    (!ok ==> edgeMarks == [] && nodeMarks == []);
    restored
  }

  /** The stamp `createStamp` makes of the scene as it is: its record and
      the ids of the selected nodes and edges, in selection order; none
      when serializing raises, that is when some edge has a missing end. */
  function StampOf(scene: Scene, description: string, sel: seq<Pick>): (r: Option<Stamp>)
    reads scene`id, scene`width, scene`height, scene`nodes, scene`edges, scene.nodes, scene.edges
    reads PickedNodes(sel), PickedEdges(sel)
    ensures r.Some? <==> forall e :: e in scene.edges ==> e.start != null && e.end != null
    ensures r.Some? ==> r.value.snapshot == scene.Doc().value && |r.value.selectedNodes| == |PickedNodes(sel)|
  {
    match scene.Doc()
    case None => None
    case Some(doc) => Some(Stamp(description, doc, NodeIdsIn(PickedNodes(sel)), EdgeIdsIn(PickedEdges(sel))))
  }

  /** One intended selection loop of `restoreStamp`, over the edges: each
      edge, in order, is marked with whether its id was recorded. */
  method MarkEdges(edges: seq<Edge>, ids: seq<int>) returns (marks: seq<(Edge, bool)>)
    ensures marks == Reselected(edges, EdgeIdsIn(edges), ids)
  {
    marks := [];
    for j := 0 to |edges|
      invariant marks == Reselected(edges[..j], EdgeIdsIn(edges[..j]), ids)
    {
      TakeNext(edges, j);
      EdgeIdsInAppend(edges[..j], edges[j]);
      marks := marks + [(edges[j], edges[j].id in ids)];
    }
    assert edges[..|edges|] == edges;
  }

  /** The same loop over the nodes. */
  method MarkNodes(nodes: seq<Node>, ids: seq<int>) returns (marks: seq<(Node, bool)>)
    ensures marks == Reselected(nodes, NodeIdsIn(nodes), ids)
  {
    marks := [];
    for j := 0 to |nodes|
      invariant marks == Reselected(nodes[..j], NodeIdsIn(nodes[..j]), ids)
    {
      TakeNext(nodes, j);
      NodeIdsInAppend(nodes[..j], nodes[j]);
      marks := marks + [(nodes[j], nodes[j].id in ids)];
    }
    assert nodes[..|nodes|] == nodes;
  }

  class SceneHistory {
    const scene: Scene
    var stack: seq<Stamp>
    var ptr: int

    ghost predicate Valid()
      reads this
    {
      Bounded(stack, ptr)
    }

    /** A new history: empty, cursor at -1. */
    constructor(scene: Scene)
      ensures Valid() && this.scene == scene && stack == [] && ptr == -1
    {
      this.scene := scene;
      stack := [];
      ptr := -1;
    }

    /** `undo`: on a stamp after the first the cursor moves back and the
        scene is loaded from the stamp under it; otherwise nothing happens.
        The stack is never changed. `ok` is false where loading raises. */
    method Undo() returns (ok: bool, edgeMarks: seq<(Edge, bool)>, nodeMarks: seq<(Node, bool)>)
      requires Valid() && scene.Sound()
      modifies this`ptr
      modifies scene`id, scene`width, scene`height, scene`modified, scene`notified, scene`nodes, scene`edges
      modifies scene`NodeSet, scene`SocketSet, scene`EdgeSet, scene.bindings, scene.ids, scene.EdgeSet, scene.SocketSet
      ensures Valid() && scene.Sound() && stack == old(stack) && ptr == Undone(old(ptr))
      ensures old(ptr) > 0 ==> Restored(scene, stack[ptr], ok, edgeMarks, nodeMarks)
      ensures old(ptr) <= 0 ==> ok && edgeMarks == [] && nodeMarks == [] && unchanged(scene)
    {
      ok, edgeMarks, nodeMarks := true, [], [];
      if ptr > 0 {
        ptr := ptr - 1;
        ok, edgeMarks, nodeMarks := Restore();
      }
    }

    /** `redo`: before the last stamp the cursor moves on and the scene is
        loaded from the stamp under it; otherwise nothing happens. The stack
        is never changed. */
    method Redo() returns (ok: bool, edgeMarks: seq<(Edge, bool)>, nodeMarks: seq<(Node, bool)>)
      requires Valid() && scene.Sound()
      modifies this`ptr
      modifies scene`id, scene`width, scene`height, scene`modified, scene`notified, scene`nodes, scene`edges
      modifies scene`NodeSet, scene`SocketSet, scene`EdgeSet, scene.bindings, scene.ids, scene.EdgeSet, scene.SocketSet
      ensures Valid() && scene.Sound() && stack == old(stack) && ptr == Redone(old(ptr), |stack|)
      ensures old(ptr) + 1 < |stack| ==> Restored(scene, stack[ptr], ok, edgeMarks, nodeMarks)
      ensures old(ptr) + 1 >= |stack| ==> ok && edgeMarks == [] && nodeMarks == [] && unchanged(scene)
    {
      ok, edgeMarks, nodeMarks := true, [], [];
      if ptr + 1 < |stack| {
        ptr := ptr + 1;
        ok, edgeMarks, nodeMarks := Restore();
      }
    }

    /** `restore`: the stamp under the cursor is loaded. */
    method Restore() returns (ok: bool, edgeMarks: seq<(Edge, bool)>, nodeMarks: seq<(Node, bool)>)
      requires Valid() && 0 <= ptr && scene.Sound()
      modifies scene`id, scene`width, scene`height, scene`modified, scene`notified, scene`nodes, scene`edges
      modifies scene`NodeSet, scene`SocketSet, scene`EdgeSet, scene.bindings, scene.ids, scene.EdgeSet, scene.SocketSet
      ensures scene.Sound() && Restored(scene, stack[ptr], ok, edgeMarks, nodeMarks)
    {
      ok, edgeMarks, nodeMarks := RestoreStamp(stack[ptr]);
    }

    /** `store`: the scene's `modified` flag is set first (its listeners
        called on a false-to-true change); then room is made and the new
        stamp pushed. Serializing a scene with a half-connected edge raises
        after room was made: `ok` is then false and no stamp is pushed. */
    method Store(description: string, modified: bool, sel: seq<Pick>) returns (ok: bool)
      requires Valid()
      modifies this`stack, this`ptr, scene`modified, scene`notified
      ensures Valid() && scene.modified == modified && (old(scene.Sound()) ==> scene.Sound())
      ensures scene.notified == old(scene.notified) + (if !old(scene.modified) && modified then scene.listeners else [])
      ensures ok == StampOf(scene, description, sel).Some?
      ensures ok ==> (stack, ptr) == Pushed(old(stack), old(ptr), StampOf(scene, description, sel).value)
      ensures !ok ==> (stack, ptr) == Room(old(stack), old(ptr))
    {
      scene.SetModified(modified);
      ok := PushStamp(description, sel);
    }

    /** The rest of `store`, after the flag is set: room is made and the
        stamp of the scene as it is goes on top, if it can be made. */
    method PushStamp(description: string, sel: seq<Pick>) returns (ok: bool)
      requires Valid()
      modifies this`stack, this`ptr
      ensures Valid() && ok == StampOf(scene, description, sel).Some?
      ensures ok ==> (stack, ptr) == Pushed(old(stack), old(ptr), StampOf(scene, description, sel).value)
      ensures !ok ==> (stack, ptr) == Room(old(stack), old(ptr))
    {
      MakeRoom();
      var stamp := CreateStamp(description, sel);
      if stamp.None? {
        return false;
      }
      Push(stamp.value, description, sel);
      ok := true;
    }

    /** The first two steps of `store`: the stamps after the cursor are cut
        off, then the oldest one when the cursor is at the limit. */
    method MakeRoom()
      requires Valid()
      modifies this`stack, this`ptr
      ensures Valid() && (stack, ptr) == Room(old(stack), old(ptr))
    {
      if ptr + 1 < |stack| {
        stack := stack[..ptr + 1];
      }
      if ptr + 1 >= HISTORY_LIMIT {
        stack := stack[1..];
        ptr := ptr - 1;
      }
    }

    /** The last step of `store`: the stamp goes on top and the cursor names it. */
    method Push(stamp: Stamp, ghost description: string, ghost sel: seq<Pick>)
      requires Valid() && |stack| < HISTORY_LIMIT && ptr == |stack| - 1
      modifies this`stack, this`ptr
      ensures Valid() && stack == old(stack) + [stamp] && ptr == old(ptr) + 1
      ensures StampOf(scene, description, sel) == old(StampOf(scene, description, sel))
    {
      stack := stack + [stamp];
      ptr := ptr + 1;
    }

    /** `createStamp`: the ids of the selected nodes and edges, in selection
        order, and the scene's record; no stamp when serializing raises.
        (Serializing changes nothing, so it is done first here.) */
    method CreateStamp(description: string, sel: seq<Pick>) returns (stamp: Option<Stamp>)
      ensures stamp == StampOf(scene, description, sel)
    {
      var snapshot := scene.Serialize();
      var nodes, edges := SelectedIds(sel);
      if snapshot.None? {
        return None;
      }
      stamp := Some(Stamp(description, snapshot.value, nodes, edges));
    }

    /** `restoreStamp`: the scene is deserialized from the snapshot (with
        `restore`); if that raises nothing else happens, otherwise the
        selection flags are set again. */
    method RestoreStamp(stamp: Stamp) returns (ok: bool, edgeMarks: seq<(Edge, bool)>, nodeMarks: seq<(Node, bool)>)
      requires scene.Sound()
      modifies scene`id, scene`width, scene`height, scene`modified, scene`notified, scene`nodes, scene`edges
      modifies scene`NodeSet, scene`SocketSet, scene`EdgeSet, scene.bindings, scene.ids, scene.EdgeSet, scene.SocketSet
      ensures scene.Sound() && Restored(scene, stamp, ok, edgeMarks, nodeMarks)
    {
      ok := Reload(stamp.snapshot);
      if !ok {
        return ok, [], [];
      }
      edgeMarks, nodeMarks := Reselect(stamp, ok);
    }

    /** The first step of `restoreStamp`: `deserialize(snapshot, restore=True)`. */
    method Reload(snapshot: SceneRecord) returns (ok: bool)
      requires scene.Sound()
      modifies scene`id, scene`width, scene`height, scene`modified, scene`notified, scene`nodes, scene`edges
      modifies scene`NodeSet, scene`SocketSet, scene`EdgeSet, scene.bindings, scene.ids, scene.EdgeSet, scene.SocketSet
      ensures scene.Sound() && Reloaded(scene, snapshot, ok)
    {
      ok := scene.Deserialize(snapshot, true);
    }

    /** The selection loops of `restoreStamp` as evidently intended: each
        edge and each node of the scene is selected exactly when its id is
        in the stamp. Setting flags leaves the scene as it was loaded. */
    method Reselect(stamp: Stamp, ghost ok: bool) returns (edgeMarks: seq<(Edge, bool)>, nodeMarks: seq<(Node, bool)>)
      ensures old(Reloaded(scene, stamp.snapshot, ok)) ==> Reloaded(scene, stamp.snapshot, ok)
      ensures edgeMarks == Reselected(scene.edges, EdgeIdsIn(scene.edges), stamp.selectedEdges)
      ensures nodeMarks == Reselected(scene.nodes, NodeIdsIn(scene.nodes), stamp.selectedNodes)
    {
      edgeMarks := MarkEdges(scene.edges, stamp.selectedEdges);
      nodeMarks := MarkNodes(scene.nodes, stamp.selectedNodes);
    }

    /** The selection loops of `restoreStamp` as written: the inner loop
        breaks after its first item, so each selected id only ever sets the
        flag of the first edge (first node), to whether the ids agree. */
    method ReselectAsWritten(stamp: Stamp) returns (edgeMarks: seq<(Edge, bool)>, nodeMarks: seq<(Node, bool)>)
      ensures edgeMarks == if scene.edges == [] then [] else FirstOnly(scene.edges[0], scene.edges[0].id, stamp.selectedEdges)
      ensures nodeMarks == if scene.nodes == [] then [] else FirstOnly(scene.nodes[0], scene.nodes[0].id, stamp.selectedNodes)
    {
      var ids := stamp.selectedEdges;
      edgeMarks := [];
      for k := 0 to |ids|
        invariant edgeMarks == if scene.edges == [] then [] else FirstOnly(scene.edges[0], scene.edges[0].id, ids[..k])
      {
        assert ids[..k + 1][..k] == ids[..k];
        for j := 0 to |scene.edges|
          invariant j == 0
        {
          var e := scene.edges[j];
          edgeMarks := edgeMarks + [(e, ids[k] == e.id)];
          break;
        }
      }
      assert ids[..|ids|] == ids;
      ids := stamp.selectedNodes;
      nodeMarks := [];
      for k := 0 to |ids|
        invariant nodeMarks == if scene.nodes == [] then [] else FirstOnly(scene.nodes[0], scene.nodes[0].id, ids[..k])
      {
        assert ids[..k + 1][..k] == ids[..k];
        for j := 0 to |scene.nodes|
          invariant j == 0
        {
          var n := scene.nodes[j];
          nodeMarks := nodeMarks + [(n, ids[k] == n.id)];
          break;
        }
      }
      assert ids[..|ids|] == ids;
    }
  }
}
