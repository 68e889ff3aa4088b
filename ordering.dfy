/** The re-sort of the open list, `OrderBy(p => p.F).ThenBy(n => n.H)`: a stable
    sort of arena indices by the (F, H) key of the markers they name. */
module CostOrder {
  import opened Markers

  /** Every index in `s` names a marker of the arena `ms`. */
  predicate InArena(ms: seq<Marker>, s: seq<nat>)
  {
    forall k :: 0 <= k < |s| ==> s[k] < |ms|
  }

  /** Non-decreasing by (F, H) over every pair of positions. */
  predicate Sorted(ms: seq<Marker>, s: seq<nat>)
    requires InArena(ms, s)
  {
    forall i, j :: 0 <= i < j < |s| ==> CostLe(ms[s[i]], ms[s[j]])
  }

  /** The indices of `s` whose marker has key (f, h), in the order of `s`. */
  function WithCost(ms: seq<Marker>, s: seq<nat>, f: real, h: real): seq<nat>
    requires InArena(ms, s)
  {
    if s == [] then []
    else (if ms[s[0]].f == f && ms[s[0]].h == h then [s[0]] else []) + WithCost(ms, s[1..], f, h)
  }

  /** Places `i` in front of the first element whose key is not smaller. */
  function Insert(ms: seq<Marker>, i: nat, t: seq<nat>): (r: seq<nat>)
    requires i < |ms| && InArena(ms, t)
    ensures multiset(r) == multiset(t) + multiset{i}
    ensures InArena(ms, r)
  {
    if t == [] || CostLe(ms[i], ms[t[0]]) then [i] + t
    else
      var rest := Insert(ms, i, t[1..]);
      assert t == [t[0]] + t[1..];
      [t[0]] + rest
  }

  /** Insertion sort by (F, H); equal keys keep their relative order. */
  function SortByCost(ms: seq<Marker>, s: seq<nat>): (r: seq<nat>)
    requires InArena(ms, s)
    ensures multiset(r) == multiset(s)
    ensures |r| == |s|
    ensures InArena(ms, r)
  {
    if s == [] then []
    else
      assert s == [s[0]] + s[1..];
      Insert(ms, s[0], SortByCost(ms, s[1..]))
  }

  /** Every element of `r` is `i` or an element of `t`. */
  lemma InsertMembers(ms: seq<Marker>, i: nat, t: seq<nat>, x: nat)
    requires i < |ms| && InArena(ms, t)
    requires x in Insert(ms, i, t)
    ensures x == i || x in t
  {
    assert x in multiset(Insert(ms, i, t));
  }

  lemma {:induction false} InsertSorted(ms: seq<Marker>, i: nat, t: seq<nat>)
    requires i < |ms| && InArena(ms, t) && Sorted(ms, t)
    ensures Sorted(ms, Insert(ms, i, t))
  {
    if t == [] || CostLe(ms[i], ms[t[0]]) {
      var r := [i] + t;
      forall a, b | 0 <= a < b < |r|
        ensures CostLe(ms[r[a]], ms[r[b]])
      {
        if a == 0 && b > 1 {
          assert CostLe(ms[t[0]], ms[t[b - 1]]);
        }
      }
    } else {
      var t1 := t[1..];
      var rest := Insert(ms, i, t1);
      InsertSorted(ms, i, t1);
      var r := [t[0]] + rest;
      forall b | 0 <= b < |rest|
        ensures CostLe(ms[t[0]], ms[rest[b]])
      {
        InsertMembers(ms, i, t1, rest[b]);
        if rest[b] != i {
          var j :| 0 <= j < |t1| && t1[j] == rest[b];
          assert t[j + 1] == rest[b];
        }
      }
      forall a, b | 0 <= a < b < |r|
        ensures CostLe(ms[r[a]], ms[r[b]])
      {
        assert r[b] == rest[b - 1];
        if a > 0 {
          assert r[a] == rest[a - 1];
        }
      }
    }
  }

  /** The sorted list is ordered by (F, then H). */
  lemma {:induction false} SortByCostSorted(ms: seq<Marker>, s: seq<nat>)
    requires InArena(ms, s)
    ensures Sorted(ms, SortByCost(ms, s))
  {
    if s != [] {
      SortByCostSorted(ms, s[1..]);
      InsertSorted(ms, s[0], SortByCost(ms, s[1..]));
    }
  }

  /** `WithCost` on a sequence with a known head. */
  lemma WithCostCons(ms: seq<Marker>, x: nat, s: seq<nat>, f: real, h: real)
    requires x < |ms| && InArena(ms, s)
    ensures InArena(ms, [x] + s)
    ensures WithCost(ms, [x] + s, f, h) == (if ms[x].f == f && ms[x].h == h then [x] else []) + WithCost(ms, s, f, h)
  {
    assert ([x] + s)[0] == x && ([x] + s)[1..] == s;
  }

  /** Inserting `i` puts it in front of every index with the same key, and leaves
      the order of every key's indices in `t` as it was. */
  lemma {:induction false} InsertStable(ms: seq<Marker>, i: nat, t: seq<nat>, f: real, h: real)
    requires i < |ms| && InArena(ms, t)
    ensures WithCost(ms, Insert(ms, i, t), f, h)
         == (if ms[i].f == f && ms[i].h == h then [i] else []) + WithCost(ms, t, f, h)
  {
    if t == [] || CostLe(ms[i], ms[t[0]]) {
      WithCostCons(ms, i, t, f, h);
    } else {
      var t1 := t[1..];
      assert t == [t[0]] + t1;
      var rest := Insert(ms, i, t1);
      WithCostCons(ms, t[0], rest, f, h);
      WithCostCons(ms, t[0], t1, f, h);
      InsertStable(ms, i, t1, f, h);
      if ms[t[0]].f == f && ms[t[0]].h == h {
        assert !(ms[i].f == f && ms[i].h == h);
      }
    }
  }

  /** Stability: for every key, the indices with that key appear in the sorted
      list in the same order as before. */
  lemma {:induction false} SortByCostStable(ms: seq<Marker>, s: seq<nat>, f: real, h: real)
    requires InArena(ms, s)
    ensures WithCost(ms, SortByCost(ms, s), f, h) == WithCost(ms, s, f, h)
  {
    if s != [] {
      SortByCostStable(ms, s[1..], f, h);
      InsertStable(ms, s[0], SortByCost(ms, s[1..]), f, h);
    }
  }
}
