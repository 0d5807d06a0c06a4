/** Python's list operations that the graph model relies on: removing the
    first occurrence of a value, counting occurrences, and what a `for`
    loop reaches when its body shrinks the list it walks. */
module Lists {

  /** The number of occurrences of `x` in `s`. */
  function Count<T(==)>(s: seq<T>, x: T): nat
  {
    if s == [] then 0 else (if s[0] == x then 1 else 0) + Count(s[1..], x)
  }

  lemma {:induction false} CountPositive<T>(s: seq<T>, x: T)
    ensures Count(s, x) > 0 <==> x in s
  {
    if s != [] {
      CountPositive(s[1..], x);
      assert x in s <==> s[0] == x || x in s[1..];
    }
  }

  lemma {:induction false} CountConcat<T>(a: seq<T>, b: seq<T>, x: T)
    ensures Count(a + b, x) == Count(a, x) + Count(b, x)
  {
    if a == [] {
      assert a + b == b;
    } else {
      assert (a + b)[1..] == a[1..] + b;
      CountConcat(a[1..], b, x);
    }
  }

  lemma CountAppend<T>(s: seq<T>, y: T, x: T)
    ensures Count(s + [y], x) == Count(s, x) + (if y == x then 1 else 0)
  {
    CountConcat(s, [y], x);
  }

  /** The position of the first occurrence of `x` in `s`. */
  function FirstIndex<T(==)>(s: seq<T>, x: T): (i: nat)
    requires x in s
    ensures i < |s| && s[i] == x && x !in s[..i]
  {
    if s[0] == x then 0 else 1 + FirstIndex(s[1..], x)
  }

  /** `list.remove(x)`: drops the first occurrence of `x`; a value that is
      absent leaves the list as it is (the callers decide whether the source
      logs or raises then). */
  function Erase<T(==)>(s: seq<T>, x: T): (r: seq<T>)
    ensures x !in s ==> r == s
  {
    if s == [] then []
    else if s[0] == x then s[1..]
    else [s[0]] + Erase(s[1..], x)
  }

  /** A present value goes from its first position and the list closes up. */
  lemma {:induction false} EraseAt<T>(s: seq<T>, x: T)
    requires x in s
    ensures Erase(s, x) == s[..FirstIndex(s, x)] + s[FirstIndex(s, x) + 1..]
  {
    if s[0] != x {
      var t := s[1..];
      var i := FirstIndex(t, x);
      EraseAt(t, x);
      assert Erase(s, x) == [s[0]] + (t[..i] + t[i + 1..]);
      assert FirstIndex(s, x) == i + 1;
      assert [s[0]] + t[..i] == s[..i + 1];
      assert t[i + 1..] == s[i + 2..];
    }
  }

  /** Erasing a present value shortens the list by one. */
  lemma {:induction false} EraseLength<T>(s: seq<T>, x: T)
    requires x in s
    ensures |Erase(s, x)| == |s| - 1
  {
    if s[0] != x {
      EraseLength(s[1..], x);
    }
  }

  /** Erasing takes exactly one copy of `x` out, and only when one is there. */
  lemma {:induction false} CountErase<T>(s: seq<T>, y: T, x: T)
    ensures Count(Erase(s, y), x) == Count(s, x) - (if y == x && y in s then 1 else 0)
  {
    if s != [] {
      CountErase(s[1..], y, x);
      CountPositive(s, y);
      CountPositive(s[1..], y);
      if s[0] != y {
        assert Erase(s, y) == [s[0]] + Erase(s[1..], y);
        assert ([s[0]] + Erase(s[1..], y))[1..] == Erase(s[1..], y);
      }
    }
  }

  /** No value occurs twice. */
  predicate NoDup<T(==)>(s: seq<T>)
  {
    forall i, j :: 0 <= i < j < |s| ==> s[i] != s[j]
  }

  lemma {:induction false} NoDupCount<T>(s: seq<T>, x: T)
    requires NoDup(s)
    ensures Count(s, x) == if x in s then 1 else 0
  {
    if s != [] {
      assert NoDup(s[1..]);
      NoDupCount(s[1..], x);
      assert x in s <==> s[0] == x || x in s[1..];
      if s[0] == x {
        assert x !in s[1..];
      }
    }
  }

  /** In a list without repetitions, erasing `x` removes it completely,
      keeps every other element and keeps the list repetition-free. */
  lemma EraseNoDup<T>(s: seq<T>, x: T)
    requires NoDup(s)
    ensures NoDup(Erase(s, x)) && x !in Erase(s, x)
    ensures forall y :: y in Erase(s, x) <==> y in s && y != x
  {
    if x in s {
      var i := FirstIndex(s, x);
      NoDupSplit(s, i);
      EraseAt(s, x);
      var r := Erase(s, x);
      assert r == s[..i] + s[i + 1..];
      forall y | y in s && y != x ensures y in r {
        var k :| 0 <= k < |s| && s[k] == y;
        InSplit(s, i, k);
      }
    }
  }

  lemma InSplit<T>(s: seq<T>, i: nat, k: nat)
    requires i < |s| && k < |s| && k != i
    ensures s[k] in s[..i] + s[i + 1..]
  {
    var r := s[..i] + s[i + 1..];
    if k < i {
      assert r[k] == s[k];
    } else {
      assert r[k - 1] == s[k];
    }
  }

  /** Appending a value that is not yet there keeps a list repetition-free. */
  lemma AppendNoDup<T>(s: seq<T>, x: T)
    requires NoDup(s) && x !in s
    ensures NoDup(s + [x])
  {
  }

  /** Every occurrence of `x` dropped, the rest kept in order. */
  function RemoveAll<T(==)>(s: seq<T>, x: T): (r: seq<T>)
    ensures |r| <= |s|
    ensures x !in r
  {
    if s == [] then []
    else if s[0] == x then RemoveAll(s[1..], x)
    else [s[0]] + RemoveAll(s[1..], x)
  }

  /** What is left after removing every copy of `x`: everything else. */
  lemma {:induction false} RemoveAllMembers<T>(s: seq<T>, x: T)
    ensures forall y :: y in RemoveAll(s, x) <==> y in s && y != x
  {
    if s != [] {
      RemoveAllMembers(s[1..], x);
      assert forall y :: y in s <==> y == s[0] || y in s[1..];
    }
  }

  /** Removing a present value shortens the list. */
  lemma {:induction false} RemoveAllShorter<T>(s: seq<T>, x: T)
    requires x in s
    ensures |RemoveAll(s, x)| < |s|
  {
    if s[0] != x {
      RemoveAllShorter(s[1..], x);
    }
  }

  lemma {:induction false} RemoveAllAppend<T>(a: seq<T>, b: seq<T>, x: T)
    ensures RemoveAll(a + b, x) == RemoveAll(a, x) + RemoveAll(b, x)
  {
    if a == [] {
      assert a + b == b;
    } else {
      assert (a + b)[1..] == a[1..] + b;
      RemoveAllAppend(a[1..], b, x);
    }
  }

  lemma {:induction false} RemoveAllAbsent<T>(s: seq<T>, x: T)
    requires x !in s
    ensures RemoveAll(s, x) == s
  {
    if s != [] {
      RemoveAllAbsent(s[1..], x);
    }
  }

  /** Removing every copy of one value keeps the count of every other value. */
  lemma {:induction false} CountRemoveAll<T>(s: seq<T>, y: T, x: T)
    ensures Count(RemoveAll(s, y), x) == if x == y then 0 else Count(s, x)
  {
    if s != [] {
      CountRemoveAll(s[1..], y, x);
      if s[0] != y {
        assert ([s[0]] + RemoveAll(s[1..], y))[1..] == RemoveAll(s[1..], y);
      }
    }
    CountPositive(RemoveAll(s, y), y);
  }

  /** Erasing a value that occurs once removes all of it. */
  lemma {:induction false} EraseSingle<T>(s: seq<T>, x: T)
    requires Count(s, x) == 1
    ensures Erase(s, x) == RemoveAll(s, x)
  {
    if s[0] == x {
      CountPositive(s[1..], x);
      RemoveAllAbsent(s[1..], x);
    } else {
      EraseSingle(s[1..], x);
    }
  }

  /** Erasing a value that occurs twice, twice, removes all of it. */
  lemma {:induction false} EraseDouble<T>(s: seq<T>, x: T)
    requires Count(s, x) == 2
    ensures Erase(Erase(s, x), x) == RemoveAll(s, x)
  {
    if s[0] == x {
      EraseSingle(s[1..], x);
    } else {
      EraseDouble(s[1..], x);
      assert Erase(s, x) == [s[0]] + Erase(s[1..], x);
      assert Erase(s, x)[1..] == Erase(s[1..], x);
    }
  }

  /** The elements a Python `for x in l:` loop reaches when its body deletes
      every occurrence of `x` from `l` and nothing else: the loop's hidden
      position `i` moves on while the list closes up behind it. */
  function Visited<T(==)>(l: seq<T>, i: nat): (r: seq<T>)
    decreases |l| - i
  {
    if i >= |l| then [] else [l[i]] + Visited(RemoveAll(l, l[i]), i + 1)
  }

  /** One more step of the loop `Visited` describes: `done` reached so far,
      then the element at `i`, after whose deletion the walk goes on at `i + 1`. */
  lemma VisitedNext<T>(done: seq<T>, l: seq<T>, i: nat, all: seq<T>)
    requires i < |l| && done + Visited(l, i) == all
    ensures (done + [l[i]]) + Visited(RemoveAll(l, l[i]), i + 1) == all
  {
    var rest := Visited(RemoveAll(l, l[i]), i + 1);
    assert Visited(l, i) == [l[i]] + rest;
    assert (done + [l[i]]) + rest == done + ([l[i]] + rest);
  }

  /** The elements at positions 0, 2, 4, ... */
  function Evens<T>(s: seq<T>): (r: seq<T>)
    ensures |r| == (|s| + 1) / 2
  {
    if |s| <= 1 then s else [s[0]] + Evens(s[2..])
  }

  lemma NoDupSplit<T>(s: seq<T>, i: nat)
    requires NoDup(s) && i < |s|
    ensures s[i] !in s[..i] && s[i] !in s[i + 1..]
    ensures NoDup(s[..i] + s[i + 1..])
  {
    var r := s[..i] + s[i + 1..];
    forall a, b | 0 <= a < b < |r| ensures r[a] != r[b] {
      var a' := if a < i then a else a + 1;
      var b' := if b < i then b else b + 1;
      assert r[a] == s[a'] && r[b] == s[b'];
    }
  }

  /** Without repetitions, removing every copy of the element at `i` just
      closes the gap at `i`. */
  lemma RemoveAllAt<T>(l: seq<T>, i: nat)
    requires i < |l| && l[i] !in l[..i] && l[i] !in l[i + 1..]
    ensures RemoveAll(l, l[i]) == l[..i] + l[i + 1..]
  {
    var x, a, b := l[i], l[..i], l[i + 1..];
    assert l == (a + [x]) + b;
    RemoveAllAbsent(a, x);
    RemoveAllAbsent(b, x);
    assert RemoveAll([x], x) == [];
    RemoveAllAppend(a, [x], x);
    assert RemoveAll(a + [x], x) == a;
    RemoveAllAppend(a + [x], b, x);
  }

  /** Without repetitions the loop reaches only every other element: each
      deletion pulls the next element into the slot just visited. */
  lemma {:induction false} VisitedEvens<T>(l: seq<T>, i: nat)
    requires NoDup(l) && i <= |l|
    ensures Visited(l, i) == Evens(l[i..])
    decreases |l| - i
  {
    if i < |l| {
      NoDupSplit(l, i);
      RemoveAllAt(l, i);
      var l' := l[..i] + l[i + 1..];
      assert Visited(l, i) == [l[i]] + Visited(l', i + 1);
      if i + 1 < |l| {
        VisitedEvens(l', i + 1);
        assert l'[i + 1..] == l[i + 2..];
        assert l[i..][2..] == l[i + 2..];
      }
    }
  }

  /** The elements of a sequence, as a set. */
  function Elements<T>(s: seq<T>): set<T>
  {
    set x | x in s
  }

  lemma TakeNext<T>(s: seq<T>, k: nat)
    requires k < |s|
    ensures s[..k + 1] == s[..k] + [s[k]]
  {
  }

  lemma DropAppend<T>(s: seq<T>, x: T, k: nat)
    requires k <= |s|
    ensures (s + [x])[k..] == s[k..] + [x]
  {
  }

  lemma TakeAppend<T>(s: seq<T>, x: T, k: nat)
    requires k <= |s|
    ensures (s + [x])[..k] == s[..k]
  {
  }

  lemma AppendAssoc<T>(a: seq<T>, b: seq<T>, x: T)
    ensures a + (b + [x]) == (a + b) + [x]
  {
  }

  lemma ElementsAppend<T>(s: seq<T>, x: T)
    ensures Elements(s + [x]) == Elements(s) + {x}
  {
  }

  /** Erasing `y` keeps every element other than `y`. */
  lemma {:induction false} EraseKeeps<T>(s: seq<T>, y: T, x: T)
    requires x in s && x != y
    ensures x in Erase(s, y)
  {
    if s[0] != y && s[0] != x {
      EraseKeeps(s[1..], y, x);
    }
  }

  /** Erasing adds no element. */
  lemma {:induction false} EraseSubset<T>(s: seq<T>, y: T, x: T)
    requires x in Erase(s, y)
    ensures x in s
  {
    if s != [] && s[0] != y && x != s[0] {
      EraseSubset(s[1..], y, x);
    }
  }

  /** Erasing a value whose first occurrence follows `a` closes the gap. */
  lemma EraseFirst<T>(a: seq<T>, x: T, b: seq<T>)
    requires x !in a
    ensures Erase(a + [x] + b, x) == a + b
  {
    var l := a + [x] + b;
    assert l[..|a|] == a && l[|a|] == x;
    FirstIndexAt(l, x, |a|);
    EraseAt(l, x);
    assert l[|a| + 1..] == b;
  }

  /** The first occurrence is the position that holds `x` with no `x`
      before it. */
  lemma {:induction false} FirstIndexAt<T>(s: seq<T>, x: T, k: nat)
    requires k < |s| && s[k] == x && x !in s[..k]
    ensures FirstIndex(s, x) == k
  {
    if k > 0 {
      assert s[..k] == [s[0]] + s[1..k];
      assert s[1..][..k - 1] == s[1..k];
      FirstIndexAt(s[1..], x, k - 1);
    }
  }

  /** `l` with every element of `r` dropped, the rest kept in order: what a
      list is left with once each of `r` has been removed from it. */
  function Without<T(==)>(l: seq<T>, r: set<T>): (w: seq<T>)
    ensures |w| <= |l|
  {
    if l == [] then [] else (if l[0] in r then [] else [l[0]]) + Without(l[1..], r)
  }

  lemma {:induction false} WithoutMembers<T>(l: seq<T>, r: set<T>)
    ensures forall y :: y in Without(l, r) <==> y in l && y !in r
  {
    if l != [] {
      WithoutMembers(l[1..], r);
      assert forall y :: y in l <==> y == l[0] || y in l[1..];
    }
  }

  lemma {:induction false} WithoutNothing<T>(l: seq<T>)
    ensures Without(l, {}) == l
  {
    if l != [] {
      WithoutNothing(l[1..]);
    }
  }

  /** Dropping a set that covers the list leaves nothing. */
  lemma WithoutCovered<T>(l: seq<T>, r: set<T>)
    requires forall y :: y in l ==> y in r
    ensures Without(l, r) == []
  {
    WithoutMembers(l, r);
  }

  /** Removing every copy of one value is dropping a one-element set. */
  lemma {:induction false} RemoveAllWithout<T>(l: seq<T>, x: T)
    ensures RemoveAll(l, x) == Without(l, {x})
  {
    if l != [] {
      RemoveAllWithout(l[1..], x);
    }
  }

  /** Dropping `a` and then `b` is dropping both at once. */
  lemma {:induction false} WithoutTwice<T>(l: seq<T>, a: set<T>, b: set<T>)
    ensures Without(Without(l, a), b) == Without(l, a + b)
  {
    if l != [] {
      WithoutTwice(l[1..], a, b);
      var w := Without(l[1..], a);
      if l[0] in a {
        assert Without(l, a) == w;
      } else {
        assert Without(l, a) == [l[0]] + w;
        assert ([l[0]] + w)[1..] == w;
      }
    }
  }

  lemma WithoutElements<T>(l: seq<T>, r: set<T>)
    ensures Elements(Without(l, r)) == Elements(l) - r
  {
    WithoutMembers(l, r);
    var w := Without(l, r);
    assert forall y :: y in Elements(w) <==> y in w;
    assert forall y :: y in Elements(l) <==> y in l;
  }

  /** Every element of each list, as one set. */
  function Union<T>(ls: seq<seq<T>>): (u: set<T>)
  {
    if ls == [] then {} else Union(ls[..|ls| - 1]) + Elements(ls[|ls| - 1])
  }

  lemma {:induction false} UnionMembers<T>(ls: seq<seq<T>>)
    ensures forall x :: x in Union(ls) <==> exists j :: 0 <= j < |ls| && x in ls[j]
  {
    if ls != [] {
      var n := |ls| - 1;
      UnionMembers(ls[..n]);
      assert forall j :: 0 <= j < n ==> ls[..n][j] == ls[j];
    }
  }

  lemma UnionNext<T>(ls: seq<seq<T>>, k: nat)
    requires k < |ls|
    ensures Union(ls[..k + 1]) == Union(ls[..k]) + Elements(ls[k])
  {
    assert ls[..k + 1][..k] == ls[..k];
  }

  /** Dropping `r` from every list drops it from their union. */
  lemma {:induction false} UnionWithout<T>(ls: seq<seq<T>>, ws: seq<seq<T>>, r: set<T>)
    requires |ws| == |ls| && forall j :: 0 <= j < |ls| ==> ws[j] == Without(ls[j], r)
    ensures Union(ws) == Union(ls) - r
  {
    if ls != [] {
      var n := |ls| - 1;
      UnionWithout(ls[..n], ws[..n], r);
      WithoutElements(ls[n], r);
    }
  }

  /** In a chain of sets each contained in the next, an earlier set is
      contained in any later one. */
  lemma {:induction false} ChainGrows<T>(c: seq<set<T>>, j: nat, k: nat)
    requires forall i :: 0 <= i < |c| - 1 ==> c[i] <= c[i + 1]
    requires j <= k < |c|
    ensures c[j] <= c[k]
  {
    if j < k {
      ChainGrows(c, j, k - 1);
    }
  }

  lemma ElementsConcat<T>(a: seq<T>, b: seq<T>)
    ensures Elements(a + b) == Elements(a) + Elements(b)
  {
  }

  /** The loop of `Visited` reaches only elements of the list. */
  lemma {:induction false} VisitedWithin<T>(l: seq<T>, i: nat)
    ensures Elements(Visited(l, i)) <= Elements(l)
    decreases |l| - i
  {
    if i < |l| {
      var rest := RemoveAll(l, l[i]);
      VisitedWithin(rest, i + 1);
      RemoveAllMembers(l, l[i]);
      assert Visited(l, i) == [l[i]] + Visited(rest, i + 1);
      forall y | y in Elements(Visited(l, i))
        ensures y in Elements(l)
      {
        assert y in Visited(l, i);
        if y != l[i] {
          assert y in Elements(Visited(rest, i + 1));
        }
      }
    }
  }

  /** What a loop over several lists reaches when each pass walks its list
      as `Visited` does and deletes what it reaches from every later list. */
  function Sweeps<T(==)>(ls: seq<seq<T>>, gone: set<T>): seq<T>
  {
    if ls == [] then []
    else
      var v := Visited(Without(ls[0], gone), 0);
      v + Sweeps(ls[1..], gone + Elements(v))
  }

  /** One more pass of a sweep: after `done`, the pass over list `k`
      reaches `v`. */
  lemma SweepsNext<T>(ls: seq<seq<T>>, k: nat, done: seq<T>, v: seq<T>)
    requires k < |ls| && v == Visited(Without(ls[k], Elements(done)), 0)
    requires done + Sweeps(ls[k..], Elements(done)) == Sweeps(ls, {})
    ensures (done + v) + Sweeps(ls[k + 1..], Elements(done + v)) == Sweeps(ls, {})
  {
    assert ls[k..][0] == ls[k] && ls[k..][1..] == ls[k + 1..];
    ElementsConcat(done, v);
  }

  /** A sweep reaches only elements of its lists. */
  lemma {:induction false} SweepWithin<T>(ls: seq<seq<T>>, gone: set<T>, x: T)
    requires x in Sweeps(ls, gone)
    ensures exists j :: 0 <= j < |ls| && x in ls[j]
  {
    var v := Visited(Without(ls[0], gone), 0);
    VisitedWithin(Without(ls[0], gone), 0);
    WithoutMembers(ls[0], gone);
    if x in v {
      assert x in Elements(v);
    } else {
      SweepWithin(ls[1..], gone + Elements(v), x);
      var j :| 0 <= j < |ls[1..]| && x in ls[1..][j];
      assert x in ls[j + 1];
    }
  }

  /** A first list `[a, b]` loses only `a` to its pass; `b` is reached by no
      later pass unless a later list holds it. */
  lemma SweepSkipsSecond<T>(a: T, b: T, rest: seq<seq<T>>)
    requires a != b && forall j :: 0 <= j < |rest| ==> b !in rest[j]
    ensures Sweeps([[a, b]] + rest, {}) == [a] + Sweeps(rest, {a})
    ensures b !in Sweeps([[a, b]] + rest, {})
  {
    var ls := [[a, b]] + rest;
    WithoutNothing([a, b]);
    assert [a, b][1..] == [b] && [b][1..] == [];
    assert RemoveAll([b], a) == [b] + RemoveAll([], a) == [b];
    assert RemoveAll([a, b], a) == RemoveAll([b], a);
    assert Visited([b], 1) == [];
    assert Visited([a, b], 0) == [a] + Visited([b], 1);
    assert ls[0] == [a, b] && ls[1..] == rest;
    var v := Visited(Without(ls[0], {}), 0);
    assert v == [a];
    assert Sweeps(ls, {}) == v + Sweeps(ls[1..], {} + Elements(v));
    assert {} + Elements(v) == {a};
    if b in Sweeps(rest, {a}) {
      SweepWithin(rest, {a}, b);
    }
  }
}
