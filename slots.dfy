/**
 * The slot store of the hash table (HashTable.java, the `array` of `HashEntry`): what a slot holds,
 * where the probe for a marker stops, which entries are live, and how one write changes all of that.
 */
module Slots {
  import opened Primes
  import opened Probing

  /**
   * One cell of the table. `Null` is Java's null; `HashEntry` is the entry class with its element,
   * its marker (the key) and the `isActive` flag. A tombstone is a HashEntry whose flag is false; it
   * keeps its element and marker.
   */
  datatype Slot<E, T> = Null | HashEntry(element: E, marker: T, isActive: bool)

  /** `isActive(pos)`: the slot holds an entry that has not been removed. */
  predicate IsLive<E, T>(slot: Slot<E, T>) {
    slot.HashEntry? && slot.isActive
  }

  /** The condition that ends the loop of `findPos` for marker y: the slot is null or holds y. */
  predicate Stops<E, T(==)>(slot: Slot<E, T>, y: T) {
    slot.Null? || slot.marker == y
  }

  /** The home position of marker y in a table of length n. */
  function Home<T>(hashCode: T -> int, y: T, n: int): nat
    requires n > 0
  {
    MyHash(hashCode(y), n)
  }

  /** The first probe index at or after i whose slot stops the search for y; |s| if none below |s| does. */
  function FirstStopFrom<E, T(==)>(s: seq<Slot<E, T>>, h: int, y: T, i: nat): (k: nat)
    requires |s| > 0 && i <= |s|
    ensures i <= k <= |s|
    ensures k < |s| ==> Stops(s[Probe(h, k, |s|)], y)
    ensures forall j: nat :: i <= j < k ==> !Stops(s[Probe(h, j, |s|)], y)
    decreases |s| - i
  {
    if i == |s| || Stops(s[Probe(h, i, |s|)], y) then i else FirstStopFrom(s, h, y, i + 1)
  }

  /** The number of steps the probe for y takes from home position h. */
  function FirstStop<E, T(==)>(s: seq<Slot<E, T>>, h: int, y: T): nat
    requires |s| > 0
  {
    FirstStopFrom(s, h, y, 0)
  }

  /** The position `findPos(y)` returns. */
  function Locate<E, T(==)>(s: seq<Slot<E, T>>, hashCode: T -> int, y: T): (pos: nat)
    requires |s| > 0
    ensures pos < |s|
  {
    var h := Home(hashCode, y, |s|);
    Probe(h, FirstStop(s, h, y), |s|)
  }

  /** The indices of the non-null slots: those counted, from above, by `occupiedCt`. */
  function NonNullSet<E, T>(s: seq<Slot<E, T>>): set<nat>
  {
    set j: nat | j < |s| && s[j].HashEntry?
  }

  /** The table can be searched: its length is an odd prime and at most half of its slots are non-null. */
  ghost predicate Searchable<E, T>(s: seq<Slot<E, T>>) {
    IsPrimeNumber(|s|) && |s| % 2 == 1 && |NonNullSet(s)| <= |s| / 2
  }

  /**
   * Every entry, live or tombstone, sits where the probe for its marker stops. This is what insert
   * establishes for the entry it writes and what makes later lookups find it.
   */
  ghost predicate Wellformed<E, T>(s: seq<Slot<E, T>>, hashCode: T -> int) {
    |s| > 0 && forall j :: 0 <= j < |s| && s[j].HashEntry? ==> Locate(s, hashCode, s[j].marker) == j
  }

  /** No marker is live in two slots. */
  ghost predicate UniqueLive<E, T>(s: seq<Slot<E, T>>) {
    forall i, j :: 0 <= i < |s| && 0 <= j < |s| && IsLive(s[i]) && IsLive(s[j]) && s[i].marker == s[j].marker ==> i == j
  }

  /** Every slot is null or live: there are no tombstones. */
  ghost predicate NoTombstones<E, T>(s: seq<Slot<E, T>>) {
    forall j :: 0 <= j < |s| && s[j].HashEntry? ==> s[j].isActive
  }

  /**
   * The live (marker, element) pairs of the slots, as a map; a later slot wins, which never matters
   * once markers are unique. This is the abstract contents of the table.
   */
  ghost function ActiveMap<E, T>(s: seq<Slot<E, T>>): (m: map<T, E>)
    ensures |m| <= |s|
    decreases |s|
  {
    if |s| == 0 then map[]
    else
      var m := ActiveMap(s[..|s| - 1]);
      var last := s[|s| - 1];
      if IsLive(last) then m[last.marker := last.element] else m
  }

  /** With unique markers, every live slot shows up in the map with its own element. */
  lemma {:induction false} ActiveMapHas<E, T>(s: seq<Slot<E, T>>, j: nat)
    requires UniqueLive(s) && j < |s| && IsLive(s[j])
    ensures s[j].marker in ActiveMap(s) && ActiveMap(s)[s[j].marker] == s[j].element
    decreases |s|
  {
    var pre := s[..|s| - 1];
    if j < |s| - 1 {
      assert pre[j] == s[j];
      assert UniqueLive(pre) by {
        forall a, b | 0 <= a < |pre| && 0 <= b < |pre| && IsLive(pre[a]) && IsLive(pre[b]) && pre[a].marker == pre[b].marker
          ensures a == b
        {
          assert pre[a] == s[a] && pre[b] == s[b];
        }
      }
      ActiveMapHas(pre, j);
    }
  }

  /** Every key of the map comes from a live slot holding that key and its element. */
  lemma {:induction false} ActiveMapSource<E, T>(s: seq<Slot<E, T>>, y: T) returns (j: nat)
    requires y in ActiveMap(s)
    ensures j < |s| && IsLive(s[j]) && s[j].marker == y && ActiveMap(s)[y] == s[j].element
    decreases |s|
  {
    var last := s[|s| - 1];
    if IsLive(last) && last.marker == y {
      j := |s| - 1;
    } else {
      var pre := s[..|s| - 1];
      j := ActiveMapSource(pre, y);
      assert pre[j] == s[j];
    }
  }

  /** A key of the live map of a prefix comes from a live slot of that prefix. */
  lemma ActiveMapPrefixSource<E, T>(s: seq<Slot<E, T>>, i: nat, y: T) returns (j: nat)
    requires i <= |s| && y in ActiveMap(s[..i])
    ensures j < i && IsLive(s[j]) && s[j].marker == y
  {
    j := ActiveMapSource(s[..i], y);
    assert s[..i][j] == s[j];
  }

  /**
   * Growing a prefix by one slot: a live slot adds its pair, and with unique markers that marker was
   * not yet in the map of the shorter prefix.
   */
  lemma ActiveMapStep<E, T>(s: seq<Slot<E, T>>, i: nat)
    requires i < |s| && UniqueLive(s)
    ensures IsLive(s[i]) ==> s[i].marker !in ActiveMap(s[..i])
    ensures ActiveMap(s[..i + 1]) == if IsLive(s[i]) then ActiveMap(s[..i])[s[i].marker := s[i].element] else ActiveMap(s[..i])
  {
    assert s[..i + 1][..i] == s[..i];
    if IsLive(s[i]) && s[i].marker in ActiveMap(s[..i]) {
      var j := ActiveMapPrefixSource(s, i, s[i].marker);
    }
  }

  /** Slots with no live entry give the empty map. */
  lemma {:induction false} ActiveMapEmpty<E, T>(s: seq<Slot<E, T>>)
    requires forall j :: 0 <= j < |s| ==> !IsLive(s[j])
    ensures ActiveMap(s) == map[]
    decreases |s|
  {
    if |s| > 0 {
      var pre := s[..|s| - 1];
      assert forall j :: 0 <= j < |pre| ==> pre[j] == s[j];
      ActiveMapEmpty(pre);
    }
  }

  /** The non-null set of a store is that of its prefix plus, possibly, the last index. */
  lemma NonNullSnoc<E, T>(s: seq<Slot<E, T>>)
    requires |s| > 0
    ensures NonNullSet(s) == NonNullSet(s[..|s| - 1]) + (if s[|s| - 1].HashEntry? then {|s| - 1} else {})
  {
    var pre := s[..|s| - 1];
    forall j: nat | j < |pre| ensures pre[j] == s[j] { }
  }

  /** There are no more live pairs than non-null slots. */
  lemma {:induction false} ActiveMapBound<E, T>(s: seq<Slot<E, T>>)
    ensures |ActiveMap(s)| <= |NonNullSet(s)|
    decreases |s|
  {
    if |s| > 0 {
      var pre := s[..|s| - 1];
      ActiveMapBound(pre);
      NonNullSnoc(s);
      var last := s[|s| - 1];
      if last.HashEntry? {
        assert |s| - 1 !in NonNullSet(pre);
      }
    }
  }

  /** Making a live slot of a new marker out of a non-live one adds that pair to the live map. */
  lemma ActiveMapAfterInsert<E, T>(s: seq<Slot<E, T>>, q: nat, x: E, y: T)
    requires q < |s| && !IsLive(s[q]) && UniqueLive(s) && UniqueLive(s[q := HashEntry(x, y, true)])
    ensures ActiveMap(s[q := HashEntry(x, y, true)]) == ActiveMap(s)[y := x]
  {
    var s' := s[q := HashEntry(x, y, true)];
    var lhs, rhs := ActiveMap(s'), ActiveMap(s)[y := x];
    forall z | z in lhs
      ensures z in rhs && rhs[z] == lhs[z]
    {
      var j := ActiveMapSource(s', z);
      if j != q {
        assert IsLive(s'[q]) && s'[q].marker == y;
        assert z != y;
        assert s[j] == s'[j];
        ActiveMapHas(s, j);
      }
    }
    forall z | z in rhs
      ensures z in lhs
    {
      if z == y {
        ActiveMapHas(s', q);
      } else {
        var j := ActiveMapSource(s, z);
        assert s'[j] == s[j];
        ActiveMapHas(s', j);
      }
    }
    assert lhs.Keys == rhs.Keys;
  }

  /** Turning a live slot into a tombstone removes its marker from the live map. */
  lemma ActiveMapAfterRemove<E, T>(s: seq<Slot<E, T>>, q: nat)
    requires q < |s| && IsLive(s[q]) && UniqueLive(s)
    ensures ActiveMap(s[q := s[q].(isActive := false)]) == ActiveMap(s) - {s[q].marker}
  {
    var s' := s[q := s[q].(isActive := false)];
    var lhs, rhs := ActiveMap(s'), ActiveMap(s) - {s[q].marker};
    assert UniqueLive(s') by {
      forall a, b | 0 <= a < |s'| && 0 <= b < |s'| && IsLive(s'[a]) && IsLive(s'[b]) && s'[a].marker == s'[b].marker
        ensures a == b
      {
        assert s'[a] == s[a] && s'[b] == s[b];
      }
    }
    forall z | z in lhs
      ensures z in rhs && rhs[z] == lhs[z]
    {
      var j := ActiveMapSource(s', z);
      assert s[j] == s'[j];
      ActiveMapHas(s, j);
    }
    forall z | z in rhs
      ensures z in lhs
    {
      var j := ActiveMapSource(s, z);
      assert s'[j] == s[j];
      ActiveMapHas(s', j);
    }
    assert lhs.Keys == rhs.Keys;
  }

  /** Under the load bound, the probe for every marker stops within (|s|+1)/2 steps. */
  lemma LocateStops<E, T>(s: seq<Slot<E, T>>, hashCode: T -> int, y: T)
    requires Searchable(s)
    ensures FirstStop(s, Home(hashCode, y, |s|), y) <= (|s| - 1) / 2
    ensures Stops(s[Locate(s, hashCode, y)], y)
  {
    var h := Home(hashCode, y, |s|);
    var i := ProbeEscapes(h, |s|, NonNullSet(s));
    assert s[Probe(h, i, |s|)].Null?;
  }

  /** Two slot stores on which the search for y sees the same stop/continue answers give the same first stop. */
  lemma {:induction false} FirstStopAgree<E, T>(s: seq<Slot<E, T>>, s': seq<Slot<E, T>>, h: int, y: T, i: nat)
    requires |s| > 0 && |s'| == |s| && i <= |s|
    requires forall j: nat :: i <= j <= FirstStopFrom(s, h, y, i) && j < |s| ==>
               Stops(s[Probe(h, j, |s|)], y) == Stops(s'[Probe(h, j, |s|)], y)
    ensures FirstStopFrom(s', h, y, i) == FirstStopFrom(s, h, y, i)
    decreases |s| - i
  {
    if i < |s| && !Stops(s[Probe(h, i, |s|)], y) {
      FirstStopAgree(s, s', h, y, i + 1);
    }
  }

  /**
   * Writing an entry with marker y at the slot where the probe for y stops leaves the probe of every
   * other marker unchanged, except for markers whose probe ended on that very slot while it was null.
   */
  lemma LocateAfterWrite<E, T>(s: seq<Slot<E, T>>, hashCode: T -> int, y: T, v: Slot<E, T>, m: T)
    requires Searchable(s) && v.HashEntry? && v.marker == y
    requires m == y || s[Locate(s, hashCode, m)].HashEntry?
    ensures Locate(s[Locate(s, hashCode, y) := v], hashCode, m) == Locate(s, hashCode, m)
  {
    var q := Locate(s, hashCode, y);
    var s' := s[q := v];
    var h := Home(hashCode, m, |s|);
    var k := FirstStop(s, h, m);
    LocateStops(s, hashCode, y);
    LocateStops(s, hashCode, m);
    forall j: nat | j <= k && j < |s|
      ensures Stops(s[Probe(h, j, |s|)], m) == Stops(s'[Probe(h, j, |s|)], m)
    {
    }
    FirstStopAgree(s, s', h, m, 0);
  }

  /** Wellformedness makes markers unique among all non-null slots, hence among live ones. */
  lemma WellformedUnique<E, T>(s: seq<Slot<E, T>>, hashCode: T -> int)
    requires Wellformed(s, hashCode)
    ensures UniqueLive(s)
  {
  }

  /** The write that `insert` and `remove` perform keeps every entry where its probe stops. */
  lemma WriteKeepsWellformed<E, T>(s: seq<Slot<E, T>>, hashCode: T -> int, y: T, v: Slot<E, T>)
    requires Wellformed(s, hashCode) && Searchable(s) && v.HashEntry? && v.marker == y
    ensures Wellformed(s[Locate(s, hashCode, y) := v], hashCode)
    ensures Locate(s[Locate(s, hashCode, y) := v], hashCode, y) == Locate(s, hashCode, y)
  {
    var q := Locate(s, hashCode, y);
    var s' := s[q := v];
    LocateAfterWrite(s, hashCode, y, v, y);
    forall j | 0 <= j < |s'| && s'[j].HashEntry?
      ensures Locate(s', hashCode, s'[j].marker) == j
    {
      if j != q {
        assert s'[j] == s[j];
        LocateAfterWrite(s, hashCode, y, v, s[j].marker);
      }
    }
  }

  /** The slot where the probe for y stops is live exactly when y is a key of the live map, and then holds its element. */
  lemma LookupAtLocate<E, T>(s: seq<Slot<E, T>>, hashCode: T -> int, y: T)
    requires Wellformed(s, hashCode) && Searchable(s)
    ensures (y in ActiveMap(s)) == IsLive(s[Locate(s, hashCode, y)])
    ensures y in ActiveMap(s) ==> ActiveMap(s)[y] == s[Locate(s, hashCode, y)].element
  {
    var q := Locate(s, hashCode, y);
    LocateStops(s, hashCode, y);
    WellformedUnique(s, hashCode);
    if IsLive(s[q]) {
      ActiveMapHas(s, q);
    } else if y in ActiveMap(s) {
      var j := ActiveMapSource(s, y);
    }
  }

  /** A write of a non-null slot adds its index to the non-null set. */
  lemma NonNullAfterWrite<E, T>(s: seq<Slot<E, T>>, q: nat, v: Slot<E, T>)
    requires q < |s| && v.HashEntry?
    ensures NonNullSet(s[q := v]) == NonNullSet(s) + {q}
    ensures s[q].HashEntry? ==> NonNullSet(s[q := v]) == NonNullSet(s)
  {
    var s' := s[q := v];
    assert forall j :: j in NonNullSet(s') <==> j in NonNullSet(s) + {q};
  }

  /**
   * The write of `insert`: a live entry (x, y) at the stopping slot for y, when that slot is not live.
   * Entries stay where their probes stop, y was not a key and now maps to x, and at most one more
   * slot is non-null.
   */
  lemma PlaceAtLocate<E, T>(s: seq<Slot<E, T>>, hashCode: T -> int, x: E, y: T)
    requires Wellformed(s, hashCode) && Searchable(s) && !IsLive(s[Locate(s, hashCode, y)])
    ensures var s' := s[Locate(s, hashCode, y) := HashEntry(x, y, true)];
            && Wellformed(s', hashCode) && UniqueLive(s')
            && y !in ActiveMap(s) && ActiveMap(s') == ActiveMap(s)[y := x]
            && |NonNullSet(s')| <= |NonNullSet(s)| + 1
  {
    var q := Locate(s, hashCode, y);
    var v := HashEntry(x, y, true);
    var s' := s[q := v];
    LookupAtLocate(s, hashCode, y);
    WriteKeepsWellformed(s, hashCode, y, v);
    NonNullAfterWrite(s, q, v);
    WellformedUnique(s, hashCode);
    WellformedUnique(s', hashCode);
    ActiveMapAfterInsert(s, q, x, y);
  }

  /**
   * The write of `remove`: the live entry at the stopping slot for y is marked deleted. Entries stay
   * where their probes stop, the non-null slots are the same, and y is no longer a key.
   */
  lemma TombstoneAtLocate<E, T>(s: seq<Slot<E, T>>, hashCode: T -> int, y: T)
    requires Wellformed(s, hashCode) && Searchable(s) && IsLive(s[Locate(s, hashCode, y)])
    ensures var q := Locate(s, hashCode, y);
            var s' := s[q := s[q].(isActive := false)];
            && Wellformed(s', hashCode) && NonNullSet(s') == NonNullSet(s)
            && y in ActiveMap(s) && ActiveMap(s') == ActiveMap(s) - {y}
            && |ActiveMap(s')| == |ActiveMap(s)| - 1
  {
    var q := Locate(s, hashCode, y);
    var v := s[q].(isActive := false);
    var s' := s[q := v];
    LookupAtLocate(s, hashCode, y);
    LocateStops(s, hashCode, y);
    WriteKeepsWellformed(s, hashCode, y, v);
    NonNullAfterWrite(s, q, v);
    WellformedUnique(s, hashCode);
    ActiveMapAfterRemove(s, q);
    assert ActiveMap(s').Keys == ActiveMap(s).Keys - {y};
  }

  /** The indices below i of the live slots, in increasing order: the rows `toString` prints. */
  function LiveIndices<E, T>(s: seq<Slot<E, T>>, i: nat): (r: seq<nat>)
    requires i <= |s|
    ensures forall k :: 0 <= k < |r| ==> r[k] < i && IsLive(s[r[k]])
    ensures forall k, l :: 0 <= k < l < |r| ==> r[k] < r[l]
    ensures forall j :: 0 <= j < i && IsLive(s[j]) ==> j in r
  {
    if i == 0 then []
    else LiveIndices(s, i - 1) + (if IsLive(s[i - 1]) then [i - 1] else [])
  }

  /** The live indices found by a shorter scan are a prefix of those found by a longer one. */
  lemma {:induction false} LiveIndicesPrefix<E, T>(s: seq<Slot<E, T>>, i: nat, j: nat)
    requires i <= j <= |s|
    ensures |LiveIndices(s, i)| <= |LiveIndices(s, j)|
    ensures LiveIndices(s, j)[..|LiveIndices(s, i)|] == LiveIndices(s, i)
    decreases j - i
  {
    if i < j {
      LiveIndicesPrefix(s, i, j - 1);
      var a, b := LiveIndices(s, i), LiveIndices(s, j - 1);
      assert LiveIndices(s, j)[..|b|] == b;
    }
  }
}
