/** The serialized form of a scene (the document that file persistence,
    history snapshots and the clipboard share), and the stable sort that
    deserialization applies to each node's socket records. */
module Records {

  // ---------------- documents written by the multi-edge model ----------------

  datatype SocketRecord = SocketRecord(id: int, index: int, position: int, socketType: int, multiEdges: bool)

  datatype NodeRecord = NodeRecord(id: int, title: string, posX: real, posY: real, contentId: int,
                                   inputs: seq<SocketRecord>, outputs: seq<SocketRecord>)

  /** `start` and `end` are the ids of the two endpoint sockets. */
  datatype EdgeRecord = EdgeRecord(id: int, start: int, end: int, edgeType: int)

  datatype SceneRecord = SceneRecord(id: int, width: int, height: int, nodes: seq<NodeRecord>, edges: seq<EdgeRecord>)

  // ---------------- documents written by the single-edge model ----------------
  // The same shape, except that a socket record has no `multi_edges` entry.

  datatype LegacySocketRecord = LegacySocketRecord(id: int, index: int, position: int, socketType: int)

  datatype LegacyNodeRecord = LegacyNodeRecord(id: int, title: string, posX: real, posY: real, contentId: int,
                                               inputs: seq<LegacySocketRecord>, outputs: seq<LegacySocketRecord>)

  datatype LegacySceneRecord = LegacySceneRecord(id: int, width: int, height: int,
                                                 nodes: seq<LegacyNodeRecord>, edges: seq<EdgeRecord>)

  /** What an id → object table holds under a key, up to the object itself. */
  datatype EntryKind = NoEntry | NodeKind | SocketKind

  // ---------------- socket ordering ----------------

  /** The composite sort key `index + position * 10000`. */
  function SortKey(index: int, position: int): int
  {
    index + position * 10000
  }

  function SocketKey(r: SocketRecord): int
  {
    SortKey(r.index, r.position)
  }

  function LegacySocketKey(r: LegacySocketRecord): int
  {
    SortKey(r.index, r.position)
  }

  /** While indices stay within 0..9999 the key orders by position first and
      by index second. */
  lemma SortKeyOrder(i: int, p: int, i': int, p': int)
    requires 0 <= i < 10000 && 0 <= i' < 10000
    ensures SortKey(i, p) < SortKey(i', p') <==> p < p' || (p == p' && i < i')
    ensures SortKey(i, p) == SortKey(i', p') <==> p == p' && i == i'
  {
  }

  /** Ascending by `key`. */
  ghost predicate SortedBy<T>(s: seq<T>, key: T -> int)
  {
    forall i, j :: 0 <= i < j < |s| ==> key(s[i]) <= key(s[j])
  }

  /** The elements of `s` whose key is `k`, in their order in `s`. */
  function WithKey<T>(s: seq<T>, key: T -> int, k: int): (r: seq<T>)
    ensures |r| <= |s|
  {
    if s == [] then []
    else (if key(s[0]) == k then [s[0]] else []) + WithKey(s[1..], key, k)
  }

  /** Places `x` after every element whose key is not larger than its own. */
  function InsertBy<T>(x: T, s: seq<T>, key: T -> int): (r: seq<T>)
    ensures |r| == |s| + 1
  {
    if s == [] then [x]
    else if key(x) < key(s[0]) then [x] + s
    else [s[0]] + InsertBy(x, s[1..], key)
  }

  /** Inserting adds `x` and loses nothing. */
  lemma {:induction false} InsertByPermutes<T>(x: T, s: seq<T>, key: T -> int)
    ensures multiset(InsertBy(x, s, key)) == multiset(s) + multiset{x}
  {
    if s != [] && key(x) >= key(s[0]) {
      InsertByPermutes(x, s[1..], key);
      assert s == [s[0]] + s[1..];
    }
  }

  /** Inserting into a sorted list keeps it sorted. */
  lemma {:induction false} InsertBySorted<T>(x: T, s: seq<T>, key: T -> int)
    requires SortedBy(s, key)
    ensures SortedBy(InsertBy(x, s, key), key)
  {
    if s != [] && key(x) >= key(s[0]) {
      var rest := InsertBy(x, s[1..], key);
      InsertBySorted(x, s[1..], key);
      InsertByPermutes(x, s[1..], key);
      forall j | 0 <= j < |rest| ensures key(s[0]) <= key(rest[j]) {
        assert rest[j] in multiset(rest);
        if rest[j] != x {
          assert rest[j] in multiset(s[1..]);
          var i :| 0 <= i < |s[1..]| && s[1..][i] == rest[j];
          assert s[i + 1] == rest[j];
        }
      }
    }
  }

  /** Python's `list.sort(key=...)`: a stable sort, written as insertion sort. */
  function SortBy<T>(s: seq<T>, key: T -> int): (r: seq<T>)
    ensures |r| == |s|
  {
    if s == [] then []
    else InsertBy(s[|s| - 1], SortBy(s[..|s| - 1], key), key)
  }

  /** Sorting permutes. */
  lemma {:induction false} SortByPermutes<T>(s: seq<T>, key: T -> int)
    ensures multiset(SortBy(s, key)) == multiset(s)
  {
    if s != [] {
      var init := s[..|s| - 1];
      assert s == init + [s[|s| - 1]];
      SortByPermutes(init, key);
      InsertByPermutes(s[|s| - 1], SortBy(init, key), key);
    }
  }

  /** Sorting sorts. */
  lemma {:induction false} SortBySorted<T>(s: seq<T>, key: T -> int)
    ensures SortedBy(SortBy(s, key), key)
  {
    if s != [] {
      var init := s[..|s| - 1];
      SortBySorted(init, key);
      InsertBySorted(s[|s| - 1], SortBy(init, key), key);
    }
  }

  lemma {:induction false} WithKeyAppend<T>(s: seq<T>, t: seq<T>, key: T -> int, k: int)
    ensures WithKey(s + t, key, k) == WithKey(s, key, k) + WithKey(t, key, k)
  {
    if s != [] {
      assert (s + t)[0] == s[0];
      assert (s + t)[1..] == s[1..] + t;
      WithKeyAppend(s[1..], t, key, k);
      var head := if key(s[0]) == k then [s[0]] else [];
      calc {
        WithKey(s + t, key, k);
        head + WithKey(s[1..] + t, key, k);
        head + (WithKey(s[1..], key, k) + WithKey(t, key, k));
        (head + WithKey(s[1..], key, k)) + WithKey(t, key, k);
      }
    } else {
      assert s + t == t;
    }
  }

  /** Inserting into a sorted list keeps every key class in its order and puts `x` last in its class. */
  lemma {:induction false} WithKeyInsert<T>(x: T, s: seq<T>, key: T -> int, k: int)
    requires SortedBy(s, key)
    ensures WithKey(InsertBy(x, s, key), key, k) == WithKey(s, key, k) + (if key(x) == k then [x] else [])
  {
    if s == [] {
    } else if key(x) < key(s[0]) {
      // every element of s has a key above key(x), so none shares its class
      assert WithKey([x] + s, key, k) == (if key(x) == k then [x] else []) + WithKey(s, key, k) by {
        assert ([x] + s)[1..] == s;
      }
      if key(x) == k {
        NoneWithKey(s, key, k);
      }
    } else {
      assert SortedBy(s[1..], key);
      WithKeyInsert(x, s[1..], key, k);
      assert ([s[0]] + InsertBy(x, s[1..], key))[1..] == InsertBy(x, s[1..], key);
    }
  }

  lemma {:induction false} NoneWithKey<T>(s: seq<T>, key: T -> int, k: int)
    requires forall i :: 0 <= i < |s| ==> key(s[i]) > k
    ensures WithKey(s, key, k) == []
  {
    if s != [] {
      NoneWithKey(s[1..], key, k);
    }
  }

  /** Stability: sorting keeps the relative order of records that share a key. */
  lemma {:induction false} SortStable<T>(s: seq<T>, key: T -> int, k: int)
    ensures WithKey(SortBy(s, key), key, k) == WithKey(s, key, k)
  {
    if s != [] {
      var init := s[..|s| - 1];
      var x := s[|s| - 1];
      assert s == init + [x];
      SortStable(init, key, k);
      SortBySorted(init, key);
      WithKeyInsert(x, SortBy(init, key), key, k);
      WithKeyAppend(init, [x], key, k);
    }
  }

  /** Sorting is idempotent: socket lists that are already in key order are kept as they are. */
  lemma {:induction false} SortSorted<T>(s: seq<T>, key: T -> int)
    requires SortedBy(s, key)
    ensures SortBy(s, key) == s
  {
    if s != [] {
      var init := s[..|s| - 1];
      var x := s[|s| - 1];
      assert SortedBy(init, key);
      SortSorted(init, key);
      InsertLast(x, init, key);
      assert s == init + [x];
    }
  }

  lemma {:induction false} InsertLast<T>(x: T, s: seq<T>, key: T -> int)
    requires forall i :: 0 <= i < |s| ==> key(s[i]) <= key(x)
    ensures InsertBy(x, s, key) == s + [x]
  {
    if s != [] {
      InsertLast(x, s[1..], key);
    }
  }
}
