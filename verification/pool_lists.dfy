/**
 * The list bookkeeping of one pool, as values.
 *
 * A pool keeps an active list (the clones it has handed out, in spawn order)
 * and a free list (the clones it has taken back, used as a stack: the last one
 * despawned is the first one reused). The methods of GameObjectPool are proved
 * against SpawnStep and DespawnStep; the lemmas below state what those steps
 * promise.
 */
module PoolLists {
  import opened Handles

  /** No element occurs twice in `s`. */
  ghost predicate NoDup<T>(s: seq<T>) {
    forall i, j :: 0 <= i < j < |s| ==> s[i] != s[j]
  }

  /** The elements of `s`, as a set. */
  ghost function Elems<T>(s: seq<T>): set<T> {
    set x | x in s
  }

  lemma NoDupCons<T>(x: T, s: seq<T>)
    ensures NoDup([x] + s) <==> x !in s && NoDup(s)
  {
    var t := [x] + s;
    if NoDup(t) {
      forall i, j | 0 <= i < j < |s| ensures s[i] != s[j] {
        assert t[i + 1] == s[i] && t[j + 1] == s[j];
      }
    }
    if x in s {
      var k :| 0 <= k < |s| && s[k] == x;
      assert t[0] == x && t[k + 1] == x;
    }
    if x !in s && NoDup(s) {
      forall i, j | 0 <= i < j < |t| ensures t[i] != t[j] {
        if i == 0 {
          assert t[j] == s[j - 1];
        } else {
          assert t[i] == s[i - 1] && t[j] == s[j - 1];
        }
      }
    }
  }

  lemma NoDupSnoc<T>(s: seq<T>, x: T)
    requires NoDup(s) && x !in s
    ensures NoDup(s + [x])
  {
    var t := s + [x];
    forall i, j | 0 <= i < j < |t| ensures t[i] != t[j] {
      assert t[i] == s[i];
      if j < |s| {
        assert t[j] == s[j];
      }
    }
  }

  lemma NoDupPrefix<T>(s: seq<T>, n: nat)
    requires NoDup(s) && n <= |s|
    ensures NoDup(s[..n])
    ensures forall j :: n <= j < |s| ==> s[j] !in s[..n]
  {
    forall j | n <= j < |s| ensures s[j] !in s[..n] {
    }
  }

  /** A sequence without duplicates has as many distinct elements as it has entries. */
  lemma {:induction false} DistinctCount<T>(s: seq<T>)
    requires NoDup(s)
    ensures |Elems(s)| == |s|
  {
    if s != [] {
      assert s == [s[0]] + s[1..];
      NoDupCons(s[0], s[1..]);
      DistinctCount(s[1..]);
      assert Elems(s) == Elems(s[1..]) + {s[0]};
    }
  }

  /** The position of the first occurrence of `x` in `s`. */
  function IndexOf<T(==)>(s: seq<T>, x: T): (k: nat)
    requires x in s
    ensures k < |s| && s[k] == x && x !in s[..k]
  {
    if s[0] == x then 0 else 1 + IndexOf(s[1..], x)
  }

  /**
   * `List<T>.Remove`: drops the first occurrence of `x` from `s`, if there is
   * one, and leaves `s` alone otherwise.
   */
  function RemoveFirst<T(==)>(s: seq<T>, x: T): (r: seq<T>)
    ensures x !in s ==> r == s
    ensures x in s ==> |r| == |s| - 1
  {
    if s == [] then []
    else if s[0] == x then s[1..]
    else [s[0]] + RemoveFirst(s[1..], x)
  }

  /** Removal takes out one occurrence of `x` and keeps every other entry, as often as it occurred. */
  lemma {:induction false} RemoveFirstCounts<T>(s: seq<T>, x: T)
    requires x in s
    ensures multiset(RemoveFirst(s, x)) == multiset(s) - multiset{x}
  {
    assert s == [s[0]] + s[1..];
    if s[0] != x {
      RemoveFirstCounts(s[1..], x);
    }
  }

  /** Removal keeps the order of the other entries: it cuts out exactly the first `x`. */
  lemma {:induction false} RemoveFirstSplits<T>(s: seq<T>, x: T)
    requires x in s
    ensures RemoveFirst(s, x) == s[..IndexOf(s, x)] + s[IndexOf(s, x) + 1..]
  {
    if s[0] == x {
      assert IndexOf(s, x) == 0;
      assert s[..0] + s[1..] == s[1..];
    } else {
      var t := s[1..];
      assert x in t;
      RemoveFirstSplits(t, x);
      var k := IndexOf(t, x);
      assert IndexOf(s, x) == k + 1;
      assert RemoveFirst(s, x) == [s[0]] + RemoveFirst(t, x);
      assert s[..k + 1] == [s[0]] + t[..k];
      assert s[k + 2..] == t[k + 1..];
      assert [s[0]] + (t[..k] + t[k + 1..]) == ([s[0]] + t[..k]) + t[k + 1..];
    }
  }

  /** On a list without duplicates, removal takes out `x` and nothing else. */
  lemma {:induction false} RemoveFirstKeepsNoDup<T>(s: seq<T>, x: T)
    requires NoDup(s)
    ensures NoDup(RemoveFirst(s, x))
    ensures Elems(RemoveFirst(s, x)) == Elems(s) - {x}
  {
    if s != [] {
      assert s == [s[0]] + s[1..];
      NoDupCons(s[0], s[1..]);
      assert Elems(s) == {s[0]} + Elems(s[1..]);
      if s[0] != x {
        RemoveFirstKeepsNoDup(s[1..], x);
        var r := RemoveFirst(s[1..], x);
        assert s[0] !in Elems(r);
        NoDupCons(s[0], r);
        assert Elems([s[0]] + r) == {s[0]} + Elems(r);
      }
    }
  }

  /** The entries of `s` that are not in `gone`, in their order. */
  function Without<T(==)>(s: seq<T>, gone: set<T>): (r: seq<T>)
    ensures forall i :: 0 <= i < |r| ==> r[i] in s && r[i] !in gone
    ensures forall i :: 0 <= i < |s| && s[i] !in gone ==> s[i] in r
    ensures |r| <= |s|
    ensures (forall i :: 0 <= i < |s| ==> s[i] !in gone) ==> r == s
  {
    if s == [] then []
    else if s[0] in gone then Without(s[1..], gone)
    else [s[0]] + Without(s[1..], gone)
  }

  /** Dropping a clone that does not occur changes nothing. */
  /** Filtering `s` leaves exactly its entries outside `gone`. */
  lemma ElemsWithout<T>(s: seq<T>, gone: set<T>)
    ensures Elems(Without(s, gone)) == Elems(s) - gone
  {
    var r := Without(s, gone);
    forall x | x in Elems(r) ensures x in Elems(s) - gone {
      var i :| 0 <= i < |r| && r[i] == x;
    }
    forall x | x in Elems(s) - gone ensures x in Elems(r) {
      var i :| 0 <= i < |s| && s[i] == x;
    }
  }

  lemma {:induction false} WithoutAbsent<T>(s: seq<T>, gone: set<T>, x: T)
    requires x !in s
    ensures Without(s, gone + {x}) == Without(s, gone)
  {
    if s != [] {
      assert s[0] != x && x !in s[1..];
      WithoutAbsent(s[1..], gone, x);
    }
  }

  /**
   * On a list without duplicates, dropping one more clone is `List.Remove` of
   * it: removals one at a time, in any order, add up to the filter.
   */
  lemma {:induction false} WithoutOneMore<T>(s: seq<T>, gone: set<T>, x: T)
    requires NoDup(s)
    ensures Without(s, gone + {x}) == RemoveFirst(Without(s, gone), x)
  {
    if s != [] {
      assert s == [s[0]] + s[1..];
      NoDupCons(s[0], s[1..]);
      var w := Without(s[1..], gone);
      if s[0] in gone {
        WithoutOneMore(s[1..], gone, x);
      } else if s[0] == x {
        WithoutAbsent(s[1..], gone, x);
        assert Without(s, gone) == [x] + w;
        assert RemoveFirst([x] + w, x) == w;
      } else {
        WithoutOneMore(s[1..], gone, x);
        assert Without(s, gone) == [s[0]] + w;
        assert ([s[0]] + w)[1..] == w;
      }
    }
  }

  /** The two lists of a pool: clones handed out, and clones waiting for reuse. */
  datatype Lists = Lists(active: seq<Clone>, free: seq<Clone>)

  /** Neither list repeats a clone, and no clone is in both. */
  ghost predicate Inv(l: Lists) {
    && NoDup(l.active)
    && NoDup(l.free)
    && (forall c :: c in l.active ==> c !in l.free)
  }

  /** `Total`: the number of entries in both lists. */
  function Total(l: Lists): nat {
    |l.active| + |l.free|
  }

  /** Under the invariant, the total is the number of distinct clones the pool holds. */
  lemma TotalCountsClones(l: Lists)
    ensures Inv(l) ==> Total(l) == |Elems(l.active) + Elems(l.free)|
  {
    if Inv(l) {
      DistinctCount(l.active);
      DistinctCount(l.free);
      assert Elems(l.active) * Elems(l.free) == {};
    }
  }

  /** Where the scan of the free list stopped: what is left of it, and the live clone it found. */
  datatype Scan = Scan(rest: seq<Clone>, found: Option<Clone>)

  /**
   * The scan TrySpawn runs over the free list: pop entries from the end,
   * dropping destroyed ones, until a live one is popped or the list is empty.
   * What is left is a prefix of the list; everything popped before the found
   * clone was destroyed; if nothing is found, every entry was destroyed.
   */
  function ScanFree(free: seq<Clone>, destroyed: set<Clone>): (r: Scan)
    ensures |r.rest| <= |free| && r.rest == free[..|r.rest|]
    ensures r.found.None? ==> r.rest == [] && forall j :: 0 <= j < |free| ==> free[j] in destroyed
    ensures r.found.Some? ==>
      && |r.rest| < |free|
      && free[|r.rest|] == r.found.value
      && r.found.value !in destroyed
      && forall j :: |r.rest| < j < |free| ==> free[j] in destroyed
    decreases |free|
  {
    if free == [] then Scan([], None)
    else
      var top := free[|free| - 1];
      if top !in destroyed then Scan(free[..|free| - 1], Some(top))
      else ScanFree(free[..|free| - 1], destroyed)
  }

  /** The outcome of one spawn: the new lists, the clone handed out, and whether it was created. */
  datatype Spawned = Spawned(lists: Lists, clone: Clone, created: bool)

  /**
   * The list effect of a successful TrySpawn: reuse the live clone the scan
   * found, or hand out `newClone`, the clone the factory would create. Either way
   * the clone is appended to the active list.
   */
  function SpawnStep(l: Lists, destroyed: set<Clone>, newClone: Clone): (r: Spawned)
    ensures r.created ==> r.clone == newClone
    ensures !r.created ==> r.clone in l.free && r.clone !in destroyed
  {
    var scan := ScanFree(l.free, destroyed);
    match scan.found
    case Some(c) => Spawned(Lists(l.active + [c], scan.rest), c, false)
    case None => Spawned(Lists(l.active + [newClone], scan.rest), newClone, true)
  }

  /**
   * A spawn keeps the invariant when the factory's clone is new to the pool;
   * the clone handed out ends the active list, and the total grows by one and
   * shrinks by what left the free list.
   */
  lemma SpawnKeepsInv(l: Lists, destroyed: set<Clone>, newClone: Clone)
    requires Inv(l) && newClone !in l.active && newClone !in l.free
    ensures var r := SpawnStep(l, destroyed, newClone);
      && Inv(r.lists)
      && r.lists.active == l.active + [r.clone]
      && Total(r.lists) == Total(l) + 1 - (|l.free| - |r.lists.free|)
  {
    var scan := ScanFree(l.free, destroyed);
    NoDupPrefix(l.free, |scan.rest|);
    if scan.found.Some? {
      var c := scan.found.value;
      assert c == l.free[|scan.rest|];
      assert c !in l.active;
      NoDupSnoc(l.active, c);
    } else {
      NoDupSnoc(l.active, newClone);
    }
  }

  /** A pool with no clones creates one, and it is the only clone afterwards. */
  lemma SpawnFromEmpty(destroyed: set<Clone>, newClone: Clone)
    ensures SpawnStep(Lists([], []), destroyed, newClone) == Spawned(Lists([newClone], []), newClone, true)
  {
  }

  /**
   * A spawn brings in no clone but the one it hands out: a reused clone comes
   * from the free list, a created one is the factory's.
   */
  lemma SpawnClonesWithin(l: Lists, destroyed: set<Clone>, newClone: Clone)
    ensures var r := SpawnStep(l, destroyed, newClone);
      && Elems(r.lists.active) + Elems(r.lists.free) <= Elems(l.active) + Elems(l.free) + {newClone}
      && (!r.created ==> r.clone in l.free)
      && (r.created ==> r.clone == newClone)
  {
    var scan := ScanFree(l.free, destroyed);
    if scan.found.Some? {
      assert scan.found.value == l.free[|scan.rest|];
    }
    forall x | x in scan.rest ensures x in l.free {
      var j :| 0 <= j < |scan.rest| && scan.rest[j] == x;
      assert l.free[j] == x;
    }
  }

  /**
   * Reuse is last-in first-out: when the last free entry is live it is the
   * clone handed out, it moves from the end of the free list to the end of the
   * active list, and the total does not change.
   */
  lemma ReusesLastFree(l: Lists, destroyed: set<Clone>, newClone: Clone)
    requires l.free != [] && l.free[|l.free| - 1] !in destroyed
    ensures var top := l.free[|l.free| - 1];
      SpawnStep(l, destroyed, newClone) == Spawned(Lists(l.active + [top], l.free[..|l.free| - 1]), top, false)
    ensures Total(SpawnStep(l, destroyed, newClone).lists) == Total(l)
  {
  }

  /**
   * The entries a spawn pops off the free list, other than the clone it hands
   * out, were all destroyed, and are in neither list afterwards; the entries
   * below the reused one are untouched; a reused clone is never a destroyed one.
   */
  lemma SpawnDropsOnlyDestroyed(l: Lists, destroyed: set<Clone>, newClone: Clone)
    requires Inv(l)
    ensures var r := SpawnStep(l, destroyed, newClone);
      && r.lists.free == l.free[..|r.lists.free|]
      && (!r.created ==> r.clone !in destroyed && r.clone == l.free[|r.lists.free|])
      && forall j :: |r.lists.free| <= j < |l.free| && l.free[j] != r.clone ==>
           && l.free[j] in destroyed
           && l.free[j] !in r.lists.active
           && l.free[j] !in r.lists.free
  {
    var r := SpawnStep(l, destroyed, newClone);
    NoDupPrefix(l.free, |r.lists.free|);
    forall j | |r.lists.free| <= j < |l.free| && l.free[j] != r.clone
      ensures l.free[j] in destroyed && l.free[j] !in r.lists.active
    {
      assert l.free[j] in l.free;
    }
  }

  /**
   * The factory is asked for a new clone exactly when every entry of the free
   * list was destroyed; the new clone is then appended and the free list ends empty.
   */
  lemma CreatesOnlyWhenNoLiveFree(l: Lists, destroyed: set<Clone>, newClone: Clone)
    ensures var r := SpawnStep(l, destroyed, newClone);
      && (r.created <==> forall c :: c in l.free ==> c in destroyed)
      && (r.created ==> r.clone == newClone && r.lists == Lists(l.active + [newClone], []))
  {
    var scan := ScanFree(l.free, destroyed);
    if scan.found.None? {
      forall c | c in l.free ensures c in destroyed {
        var j :| 0 <= j < |l.free| && l.free[j] == c;
      }
    } else {
      assert l.free[|scan.rest|] in l.free;
    }
  }

  /**
   * The list effect of a despawn: a clone on the active list leaves it and is
   * pushed on the free list; any other clone changes nothing.
   */
  function DespawnStep(l: Lists, c: Clone): (r: Lists)
    ensures Total(r) == Total(l)
    ensures c in l.active ==> r.free == l.free + [c]
    ensures c !in l.active ==> r == l
  {
    if c in l.active then Lists(RemoveFirst(l.active, c), l.free + [c]) else l
  }

  /**
   * A despawn keeps the invariant and the total; an active clone moves to the
   * top of the free list and nothing else changes list.
   */
  lemma DespawnKeepsInv(l: Lists, c: Clone)
    requires Inv(l)
    ensures var r := DespawnStep(l, c);
      && Inv(r)
      && Total(r) == Total(l)
      && Elems(r.active) + Elems(r.free) == Elems(l.active) + Elems(l.free)
      && (c in l.active ==> Elems(r.active) == Elems(l.active) - {c} && c !in r.active && r.free == l.free + [c])
      && (c !in l.active ==> r == l)
  {
    if c in l.active {
      RemoveFirstKeepsNoDup(l.active, c);
      NoDupSnoc(l.free, c);
      var r := DespawnStep(l, c);
      forall x | x in r.active ensures x !in r.free {
        assert x in Elems(r.active);
      }
      assert Elems(r.free) == Elems(l.free) + {c};
    }
  }

  /**
   * Despawn then spawn is a round trip: a live clone just despawned is the
   * clone the next spawn hands back, without creating one and without touching
   * the older free entries.
   */
  lemma DespawnThenSpawnReuses(l: Lists, c: Clone, destroyed: set<Clone>, newClone: Clone)
    requires c in l.active && c !in destroyed
    ensures SpawnStep(DespawnStep(l, c), destroyed, newClone) == Spawned(Lists(RemoveFirst(l.active, c) + [c], l.free), c, false)
  {
    var d := DespawnStep(l, c);
    assert d.free[..|d.free| - 1] == l.free;
  }
}
