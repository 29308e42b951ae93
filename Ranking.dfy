/**
 * Ranking of the scored catalog in `predict`: the stable ascending sort by
 * distance (`distances.sort((a, b) => a.distance - b.distance)`) and the
 * linear `find` of the first entry whose drink has a given milk amount.
 */
module Ranking {
  import opened Wrappers
  import opened Catalog
  import opened Distance

  /** One element of the `distances` array: a drink and its weighted distance. */
  datatype ScoredEntry = ScoredEntry(drink: Drink, distance: int)

  function Milk(e: ScoredEntry): int {
    e.drink.features.milkAmount
  }

  /** The catalog `ds` scored against the user's vector `u`, in catalog order. */
  function ScoreAll(u: Features, ds: seq<Drink>): (r: seq<ScoredEntry>)
    ensures |r| == |ds|
    ensures forall i :: 0 <= i < |ds| ==> r[i].drink == ds[i] && r[i].distance == Distance.Distance(u, ds[i].features)
    ensures forall e :: e in r ==> e.distance >= 0
  {
    seq(|ds|, i requires 0 <= i < |ds| => ScoredEntry(ds[i], Distance.Distance(u, ds[i].features)))
  }

  predicate SortedByDistance(s: seq<ScoredEntry>) {
    forall i, j :: 0 <= i < j < |s| ==> s[i].distance <= s[j].distance
  }

  // ----- the stable sort, as a function -----

  /** Inserts `x` after every trailing entry of `t` that is not farther than it. */
  function Insert(t: seq<ScoredEntry>, x: ScoredEntry): (r: seq<ScoredEntry>)
    ensures |r| == |t| + 1
  {
    if t == [] then [x]
    else if t[|t| - 1].distance <= x.distance then t + [x]
    else Insert(t[..|t| - 1], x) + [t[|t| - 1]]
  }

  /** Insertion sort that takes the entries in order, so equal distances keep their order. */
  function StableSort(s: seq<ScoredEntry>): (r: seq<ScoredEntry>)
    ensures |r| == |s|
  {
    if s == [] then [] else Insert(StableSort(s[..|s| - 1]), s[|s| - 1])
  }

  /** The position at which `Insert` places `x`. */
  function InsertPos(t: seq<ScoredEntry>, x: ScoredEntry): (j: nat)
    ensures j <= |t|
    ensures forall k :: j <= k < |t| ==> t[k].distance > x.distance
    ensures j > 0 ==> t[j - 1].distance <= x.distance
  {
    if t == [] then 0
    else if t[|t| - 1].distance <= x.distance then |t|
    else InsertPos(t[..|t| - 1], x)
  }

  /** Any position with only farther entries after it and a no-farther entry before it is where `x` goes. */
  lemma {:induction false} InsertAt(t: seq<ScoredEntry>, x: ScoredEntry, j: nat)
    requires j <= |t|
    requires forall k :: j <= k < |t| ==> t[k].distance > x.distance
    requires j > 0 ==> t[j - 1].distance <= x.distance
    ensures Insert(t, x) == t[..j] + [x] + t[j..]
  {
    if t != [] {
      var n := |t|;
      if t[n - 1].distance <= x.distance {
        assert j == n;
      } else {
        var t' := t[..n - 1];
        InsertAt(t', x, j);
        assert t'[..j] == t[..j];
        assert t[j..] == t'[j..] + [t[n - 1]];
      }
    }
  }

  lemma InsertShape(t: seq<ScoredEntry>, x: ScoredEntry)
    ensures Insert(t, x) == t[..InsertPos(t, x)] + [x] + t[InsertPos(t, x)..]
  {
    InsertAt(t, x, InsertPos(t, x));
  }

  lemma InsertKeepsSorted(t: seq<ScoredEntry>, x: ScoredEntry)
    requires SortedByDistance(t)
    ensures SortedByDistance(Insert(t, x))
  {
    var j := InsertPos(t, x);
    InsertShape(t, x);
    var r := Insert(t, x);
    assert forall i :: 0 <= i < j ==> r[i] == t[i] && t[i].distance <= x.distance;
    assert r[j] == x;
    assert forall i :: j < i < |r| ==> r[i] == t[i - 1];
  }

  /** The sort's output is ordered by ascending distance. */
  lemma {:induction false} StableSortSorted(s: seq<ScoredEntry>)
    ensures SortedByDistance(StableSort(s))
  {
    if s != [] {
      StableSortSorted(s[..|s| - 1]);
      InsertKeepsSorted(StableSort(s[..|s| - 1]), s[|s| - 1]);
    }
  }

  /** The sort's output is a permutation of its input. */
  lemma {:induction false} StableSortPermutes(s: seq<ScoredEntry>)
    ensures multiset(StableSort(s)) == multiset(s)
  {
    if s != [] {
      var s', x := s[..|s| - 1], s[|s| - 1];
      StableSortPermutes(s');
      InsertPermutes(StableSort(s'), x);
      assert s == s' + [x];
    }
  }

  /** Insertion adds exactly the inserted entry. */
  lemma InsertPermutes(t: seq<ScoredEntry>, x: ScoredEntry)
    ensures multiset(Insert(t, x)) == multiset(t) + multiset{x}
  {
    var j := InsertPos(t, x);
    InsertShape(t, x);
    var front, back := t[..j], t[j..];
    assert t == front + back;
    assert multiset(t) == multiset(front) + multiset(back);
    assert multiset(front + [x] + back) == multiset(front) + multiset{x} + multiset(back);
  }

  // ----- stability -----

  /** The entries of `s` at distance `k`, in their order in `s`. */
  function AtDistance(s: seq<ScoredEntry>, k: int): seq<ScoredEntry> {
    if s == [] then []
    else AtDistance(s[..|s| - 1], k) + (if s[|s| - 1].distance == k then [s[|s| - 1]] else [])
  }

  lemma {:induction false} AtDistanceMembers(s: seq<ScoredEntry>, k: int, e: ScoredEntry)
    ensures e in AtDistance(s, k) <==> e in s && e.distance == k
  {
    if s != [] {
      AtDistanceMembers(s[..|s| - 1], k, e);
      assert s == s[..|s| - 1] + [s[|s| - 1]];
    }
  }

  lemma {:induction false} AtDistanceAppend(a: seq<ScoredEntry>, b: seq<ScoredEntry>, k: int)
    ensures AtDistance(a + b, k) == AtDistance(a, k) + AtDistance(b, k)
  {
    if b == [] {
      assert a + b == a;
    } else {
      var b' := b[..|b| - 1];
      AtDistanceAppend(a, b', k);
      assert (a + b)[..|a + b| - 1] == a + b';
      assert (a + b)[|a + b| - 1] == b[|b| - 1];
    }
  }

  lemma {:induction false} AtDistanceOfFarther(s: seq<ScoredEntry>, k: int)
    requires forall i :: 0 <= i < |s| ==> s[i].distance > k
    ensures AtDistance(s, k) == []
  {
    if s != [] {
      AtDistanceOfFarther(s[..|s| - 1], k);
    }
  }

  /** Inserting `x` adds it at the end of its own distance class and leaves the others alone. */
  lemma AtDistanceInsert(t: seq<ScoredEntry>, x: ScoredEntry, k: int)
    ensures AtDistance(Insert(t, x), k) == AtDistance(t, k) + (if x.distance == k then [x] else [])
  {
    var j := InsertPos(t, x);
    InsertShape(t, x);
    var front, back := t[..j], t[j..];
    AtDistanceSingleton(x, k);
    AtDistanceSplit(t, j, k);
    AtDistanceAround(front, x, back, k);
    if k == x.distance {
      AtDistanceOfFarther(back, k);
    }
  }

  lemma AtDistanceSingleton(x: ScoredEntry, k: int)
    ensures AtDistance([x], k) == if x.distance == k then [x] else []
  {
    assert [x][..0] == [];
  }

  lemma AtDistanceSplit(t: seq<ScoredEntry>, j: nat, k: int)
    requires j <= |t|
    ensures AtDistance(t, k) == AtDistance(t[..j], k) + AtDistance(t[j..], k)
  {
    assert t == t[..j] + t[j..];
    AtDistanceAppend(t[..j], t[j..], k);
  }

  lemma AtDistanceAround(front: seq<ScoredEntry>, x: ScoredEntry, back: seq<ScoredEntry>, k: int)
    ensures AtDistance(front + [x] + back, k) == AtDistance(front, k) + AtDistance([x], k) + AtDistance(back, k)
  {
    AtDistanceAppend(front + [x], back, k);
    AtDistanceAppend(front, [x], k);
  }

  /** Stability: for every distance, the entries at that distance keep their relative order. */
  lemma {:induction false} StableSortKeepsTies(s: seq<ScoredEntry>, k: int)
    ensures AtDistance(StableSort(s), k) == AtDistance(s, k)
  {
    if s != [] {
      StableSortKeepsTies(s[..|s| - 1], k);
      AtDistanceInsert(StableSort(s[..|s| - 1]), s[|s| - 1], k);
    }
  }

  lemma SortedLastIsFarthest(t: seq<ScoredEntry>, e: ScoredEntry)
    requires SortedByDistance(t) && e in t
    ensures e.distance <= t[|t| - 1].distance
  {
  }

  /** An entry of `t` that also has the distance class of `t`'s last entry in `r` is no farther than `r`'s last. */
  lemma LastOfClassInOther(t: seq<ScoredEntry>, r: seq<ScoredEntry>)
    requires t != [] && SortedByDistance(r)
    requires AtDistance(t, t[|t| - 1].distance) == AtDistance(r, t[|t| - 1].distance)
    ensures r != [] && t[|t| - 1].distance <= r[|r| - 1].distance
  {
    var x := t[|t| - 1];
    assert AtDistance(t, x.distance) == AtDistance(t[..|t| - 1], x.distance) + [x];
    assert x in AtDistance(r, x.distance);
    AtDistanceMembers(r, x.distance, x);
    SortedLastIsFarthest(r, x);
  }

  /**
   * An ordering that is sorted and keeps every distance class in order is
   * unique: two such orderings of the same entries are equal.
   */
  lemma {:induction false} SortedWithSameTiesAreEqual(t: seq<ScoredEntry>, r: seq<ScoredEntry>)
    requires SortedByDistance(t) && SortedByDistance(r)
    requires forall k :: AtDistance(t, k) == AtDistance(r, k)
    ensures t == r
    decreases |t| + |r|
  {
    if t != [] {
      LastOfClassInOther(t, r);
    }
    if r != [] {
      LastOfClassInOther(r, t);
    }
    if t != [] {
      var x, y := t[|t| - 1], r[|r| - 1];
      var t', r' := t[..|t| - 1], r[..|r| - 1];
      var m := x.distance;
      assert y.distance == m;
      assert AtDistance(t, m) == AtDistance(t', m) + [x];
      assert AtDistance(r, m) == AtDistance(r', m) + [y];
      var common := AtDistance(t, m);
      assert common == AtDistance(r, m);
      assert x == common[|common| - 1] == y;
      forall k ensures AtDistance(t', k) == AtDistance(r', k) {
        if k == m {
          assert AtDistance(t', m) == AtDistance(t, m)[..|AtDistance(t, m)| - 1];
          assert AtDistance(r', m) == AtDistance(r, m)[..|AtDistance(r, m)| - 1];
        } else {
          assert AtDistance(t, k) == AtDistance(t', k);
          assert AtDistance(r, k) == AtDistance(r', k);
        }
      }
      SortedWithSameTiesAreEqual(t', r');
      assert t == t' + [x] && r == r' + [y];
    }
  }

  /**
   * `StableSort` is the only sorted arrangement of `s` that keeps equal
   * distances in input order, so any stable sort by distance (as
   * `Array.prototype.sort` is) yields exactly `StableSort(s)`.
   */
  lemma StableSortIsTheStableSort(s: seq<ScoredEntry>, t: seq<ScoredEntry>)
    requires SortedByDistance(t)
    requires forall k :: AtDistance(t, k) == AtDistance(s, k)
    ensures t == StableSort(s)
  {
    StableSortSorted(s);
    forall k ensures AtDistance(t, k) == AtDistance(StableSort(s), k) {
      StableSortKeepsTies(s, k);
    }
    SortedWithSameTiesAreEqual(t, StableSort(s));
  }

  /** The in-place sort of `predict`, written as an insertion sort. */
  method SortByDistance(a: array<ScoredEntry>)
    modifies a
    ensures a[..] == StableSort(old(a[..]))
  {
    ghost var s := a[..];
    for i := 0 to a.Length
      invariant a[..i] == StableSort(s[..i])
      invariant a[i..] == s[i..]
    {
      InsertNext(a, i);
      assert s[..i + 1][..i] == s[..i];
      assert a[i + 1..] == s[i + 1..];
    }
    assert a[..] == a[..a.Length] && s == s[..a.Length];
  }

  /** Moves `a[i]` left past the farther entries of the prefix `a[..i]`. */
  method InsertNext(a: array<ScoredEntry>, i: nat)
    requires i < a.Length
    modifies a
    ensures a[..i + 1] == Insert(old(a[..i]), old(a[i]))
    ensures a[i + 1..] == old(a[i + 1..])
  {
    var x := a[i];
    ghost var t := a[..i];
    var j := i;
    while j > 0 && a[j - 1].distance > x.distance
      invariant 0 <= j <= i
      invariant forall k :: 0 <= k < j ==> a[k] == t[k]
      invariant forall k :: j < k <= i ==> a[k] == t[k - 1]
      invariant forall k :: i < k < a.Length ==> a[k] == old(a[k])
      invariant forall k :: j <= k < i ==> t[k].distance > x.distance
    {
      a[j] := a[j - 1];
      j := j - 1;
    }
    a[j] := x;
    InsertAt(t, x, j);
    ghost var r := t[..j] + [x] + t[j..];
    assert forall k :: 0 <= k <= i ==> a[k] == r[k];
    assert a[..i + 1] == r;
  }

  // ----- the first entry with a given milk amount -----

  /** `distances.find(entry => entry.drink.milk_amount === milk)`. */
  function FirstWithMilk(s: seq<ScoredEntry>, milk: int): (r: Option<ScoredEntry>)
    ensures r.Some? ==> r.value in s && Milk(r.value) == milk
    ensures r.None? <==> forall e :: e in s ==> Milk(e) != milk
  {
    if s == [] then None
    else if Milk(s[0]) == milk then Some(s[0])
    else FirstWithMilk(s[1..], milk)
  }

  /** `find` answers with the entry at some index `i`, and no entry before `i` matches. */
  lemma {:induction false} FirstWithMilkIndex(s: seq<ScoredEntry>, milk: int) returns (i: int)
    requires FirstWithMilk(s, milk).Some?
    ensures 0 <= i < |s| && s[i] == FirstWithMilk(s, milk).value
    ensures forall j :: 0 <= j < i ==> Milk(s[j]) != milk
  {
    if Milk(s[0]) == milk {
      i := 0;
    } else {
      var k := FirstWithMilkIndex(s[1..], milk);
      i := k + 1;
    }
  }

  lemma {:induction false} FirstWithMilkAppend(a: seq<ScoredEntry>, b: seq<ScoredEntry>, milk: int)
    ensures FirstWithMilk(a + b, milk) ==
      if FirstWithMilk(a, milk).Some? then FirstWithMilk(a, milk) else FirstWithMilk(b, milk)
  {
    if a == [] {
      assert a + b == b;
    } else {
      FirstWithMilkAppend(a[1..], b, milk);
      assert (a + b)[1..] == a[1..] + b;
      assert (a + b)[0] == a[0];
    }
  }

  /** The linear scan behind `find`. */
  method FindWithMilk(a: array<ScoredEntry>, milk: int) returns (found: Option<ScoredEntry>)
    ensures found == FirstWithMilk(a[..], milk)
  {
    var i := 0;
    while i < a.Length
      invariant 0 <= i <= a.Length
      invariant FirstWithMilk(a[..], milk) == FirstWithMilk(a[i..], milk)
    {
      if Milk(a[i]) == milk {
        return Some(a[i]);
      }
      assert a[i..][1..] == a[i + 1..];
      i := i + 1;
    }
    return None;
  }

  // ----- what the first match in sorted order is, in catalog terms -----

  /**
   * Scans `s` in order and keeps the first entry with the given milk amount
   * among those nearest: a later entry replaces it only when strictly nearer.
   */
  function Preferred(s: seq<ScoredEntry>, milk: int): Option<ScoredEntry> {
    if s == [] then None
    else
      var p := Preferred(s[..|s| - 1], milk);
      var x := s[|s| - 1];
      if Milk(x) == milk && (p.None? || x.distance < p.value.distance) then Some(x) else p
  }

  /**
   * Entry `i` has the milk amount asked for, no entry with that milk amount
   * is nearer, and every earlier entry with that milk amount is farther.
   */
  predicate IsPreferredAt(s: seq<ScoredEntry>, i: int, milk: int) {
    0 <= i < |s| && Milk(s[i]) == milk &&
    (forall j :: 0 <= j < |s| && Milk(s[j]) == milk ==> s[i].distance <= s[j].distance) &&
    (forall j :: 0 <= j < i && Milk(s[j]) == milk ==> s[i].distance < s[j].distance)
  }

  /** `Preferred` finds nothing exactly when no entry has the milk amount. */
  lemma {:induction false} PreferredNoneIff(s: seq<ScoredEntry>, milk: int)
    ensures Preferred(s, milk).None? <==> forall i :: 0 <= i < |s| ==> Milk(s[i]) != milk
  {
    if s != [] {
      var s' := s[..|s| - 1];
      PreferredNoneIff(s', milk);
      assert forall i :: 0 <= i < |s'| ==> s'[i] == s[i];
    }
  }

  /** What `Preferred` finds is the earliest of the nearest entries with the milk amount; `i` is its index. */
  lemma {:induction false} PreferredIsEarliestNearest(s: seq<ScoredEntry>, milk: int) returns (i: int)
    requires Preferred(s, milk).Some?
    ensures IsPreferredAt(s, i, milk) && s[i] == Preferred(s, milk).value
  {
    var s', x := s[..|s| - 1], s[|s| - 1];
    var p := Preferred(s', milk);
    assert forall j :: 0 <= j < |s'| ==> s'[j] == s[j];
    if Milk(x) == milk && (p.None? || x.distance < p.value.distance) {
      i := |s| - 1;
      if p.None? {
        PreferredNoneIff(s', milk);
      } else {
        var i' := PreferredIsEarliestNearest(s', milk);
        assert forall j :: 0 <= j < |s'| && Milk(s'[j]) == milk ==> x.distance < s'[j].distance;
      }
    } else {
      i := PreferredIsEarliestNearest(s', milk);
      assert IsPreferredAt(s', i, milk);
    }
  }

  /** At most one entry is the earliest of the nearest. */
  lemma PreferredAtIsUnique(s: seq<ScoredEntry>, i: int, j: int, milk: int)
    requires IsPreferredAt(s, i, milk) && IsPreferredAt(s, j, milk)
    ensures i == j
  {
  }

  lemma FirstWithMilkAround(front: seq<ScoredEntry>, x: ScoredEntry, back: seq<ScoredEntry>, milk: int)
    ensures FirstWithMilk(front + [x] + back, milk) ==
      if FirstWithMilk(front, milk).Some? then FirstWithMilk(front, milk)
      else if Milk(x) == milk then Some(x)
      else FirstWithMilk(back, milk)
    ensures FirstWithMilk(front + back, milk) ==
      if FirstWithMilk(front, milk).Some? then FirstWithMilk(front, milk) else FirstWithMilk(back, milk)
  {
    FirstWithMilkAppend(front, back, milk);
    assert front + [x] + back == front + ([x] + back);
    FirstWithMilkAppend(front, [x] + back, milk);
    FirstWithMilkAppend([x], back, milk);
    assert [x][1..] == [];
  }

  /**
   * In a sorted list, inserting `x` makes it the first entry with the milk
   * amount exactly when it has that amount and is strictly nearer than the
   * previous first one.
   */
  lemma FirstWithMilkInsert(t: seq<ScoredEntry>, x: ScoredEntry, milk: int)
    requires SortedByDistance(t)
    ensures FirstWithMilk(Insert(t, x), milk) ==
      var p := FirstWithMilk(t, milk);
      if Milk(x) == milk && (p.None? || x.distance < p.value.distance) then Some(x) else p
  {
    var j := InsertPos(t, x);
    InsertShape(t, x);
    var front, back := t[..j], t[j..];
    assert t == front + back;
    FirstWithMilkAround(front, x, back, milk);
    var f, b := FirstWithMilk(front, milk), FirstWithMilk(back, milk);
    if f.Some? {
      FrontNoFarther(t, x, f.value);
    } else if b.Some? {
      BackFarther(t, x, b.value);
    }
  }

  lemma FrontNoFarther(t: seq<ScoredEntry>, x: ScoredEntry, e: ScoredEntry)
    requires SortedByDistance(t)
    requires e in t[..InsertPos(t, x)]
    ensures e.distance <= x.distance
  {
    var j := InsertPos(t, x);
    var i :| 0 <= i < j && t[..j][i] == e;
    assert t[i] == e;
  }

  lemma BackFarther(t: seq<ScoredEntry>, x: ScoredEntry, e: ScoredEntry)
    requires e in t[InsertPos(t, x)..]
    ensures e.distance > x.distance
  {
    var j := InsertPos(t, x);
    var i :| 0 <= i < |t| - j && t[j..][i] == e;
    assert t[j + i] == e;
  }

  /**
   * The first entry with the milk amount in the stably sorted list is the
   * earliest, in input order, of the nearest entries with that milk amount.
   */
  lemma {:induction false} FirstInSortedIsPreferred(s: seq<ScoredEntry>, milk: int)
    ensures FirstWithMilk(StableSort(s), milk) == Preferred(s, milk)
  {
    if s != [] {
      FirstInSortedIsPreferred(s[..|s| - 1], milk);
      StableSortSorted(s[..|s| - 1]);
      FirstWithMilkInsert(StableSort(s[..|s| - 1]), s[|s| - 1], milk);
    }
  }
}
