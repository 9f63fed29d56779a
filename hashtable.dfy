/**
 * The quadratic-probing hash table of HashTable.java: a prime-sized table of entries, each holding an
 * element, the marker (key) it is filed under and a lazy-deletion flag, kept at most half occupied by
 * rehashing into a table of at least double the size.
 */
module QuadraticProbing {
  import opened Wrappers
  import opened Arith
  import opened Primes
  import opened Probing
  import opened Slots
  import opened Decimal

  /** The size hint of the default constructor. */
  const DefaultTableSize := 101

  /** `allocateArray`: a fresh array of null slots whose length is `nextPrime(arraySize)`. */
  method AllocateArray<E, T>(arraySize: int) returns (a: array<Slot<E, T>>)
    requires arraySize >= 0
    ensures fresh(a) && IsNextPrime(arraySize, a.Length)
    ensures forall j :: 0 <= j < a.Length ==> a[j] == Null
  {
    var n := NextPrime(arraySize);
    a := new Slot<E, T>[n](_ => Null);
  }

  class HashTable<E, T(==)> {
    /** `hashCode()` of the markers. */
    const hashCode: T -> int
    /** Java's `array` field. */
    var table: array<Slot<E, T>>
    /** Slots ever written since the last clear or rehash, live or deleted. */
    var occupiedCt: int
    /** The number of live entries, as `size()` reports it. */
    var currentActiveEntries: int

    /** The marker-to-element map the table represents: its live entries. */
    ghost function Contents(): map<T, E>
      reads this, table
    {
      ActiveMap(table[..])
    }

    /**
     * What `findPos` needs: an odd prime length, every entry where its probe stops, and `occupiedCt`
     * between the number of non-null slots and half the length.
     */
    ghost predicate Probeable()
      reads this, table
    {
      && Searchable(table[..])
      && Wellformed(table[..], hashCode)
      && |NonNullSet(table[..])| <= occupiedCt <= table.Length / 2
    }

    /** The class invariant: probeable, and `size()` counts the live entries. */
    ghost predicate Valid()
      reads this, table
    {
      Probeable() && currentActiveEntries == |Contents()|
    }

    /** The counter bounds the invariant keeps: live entries <= slots written <= half the capacity. */
    lemma CountersBounded()
      requires Valid()
      ensures 0 <= currentActiveEntries <= |NonNullSet(table[..])| <= occupiedCt <= table.Length / 2
    {
      ActiveMapBound(table[..]);
    }

    /** `HashTable(int size)`: an empty table of `nextPrime(size)` slots. */
    constructor(size: int, hashCode: T -> int)
      requires size >= 0
      ensures Valid() && Contents() == map[] && fresh(table)
      ensures IsNextPrime(size, table.Length) && occupiedCt == 0
      ensures this.hashCode == hashCode
    {
      this.hashCode := hashCode;
      var a := AllocateArray(size);
      table := a;
      occupiedCt := 0;
      currentActiveEntries := 0;
      new;
      DoClear();
    }

    /** `HashTable()`: an empty table sized for the default hint of 101. */
    constructor Default(hashCode: T -> int)
      ensures Valid() && Contents() == map[] && fresh(table)
      ensures IsNextPrime(DefaultTableSize, table.Length) && table.Length == 101 && occupiedCt == 0
      ensures this.hashCode == hashCode
    {
      this.hashCode := hashCode;
      var a := AllocateArray(DefaultTableSize);
      NextPrimeExamples();
      NextPrimeUnique(DefaultTableSize, a.Length, 101);
      table := a;
      occupiedCt := 0;
      currentActiveEntries := 0;
      new;
      DoClear();
    }

    /**
     * `findPos`: walk the quadratic probe from the home position until a null slot or a slot holding
     * marker y. The result is that stopping slot, which may be a deleted entry for y.
     */
    method FindPos(y: T) returns (pos: int)
      requires Searchable(table[..])
      ensures pos == Locate(table[..], hashCode, y)
    {
      ghost var s := table[..];
      ghost var h := Home(hashCode, y, table.Length);
      ghost var k := FirstStop(s, h, y);
      LocateStops(s, hashCode, y);
      var offset := 1;
      var currentPos := MyHash(hashCode(y), table.Length);
      DivModUnique(currentPos, table.Length, 0, currentPos);
      ghost var i: nat := 0;
      while table[currentPos].HashEntry? && table[currentPos].marker != y
        invariant i <= k
        invariant currentPos == Probe(h, i, table.Length)
        invariant offset == 2 * i + 1
        decreases k - i
      {
        ProbeStep(h, i, table.Length);
        currentPos := currentPos + offset;
        offset := offset + 2;
        if currentPos >= table.Length {
          currentPos := currentPos - table.Length;
        }
        i := i + 1;
      }
      pos := currentPos;
    }

    /**
     * `insert`: if marker y is live, nothing changes and the answer is false. Otherwise the entry
     * (x, y) is written where the probe for y stops, both counters go up, and the table is rehashed
     * once more than half of it has been occupied.
     */
    method Insert(x: E, y: T) returns (r: bool)
      requires Valid()
      modifies this, table
      ensures Valid()
      ensures r == (y !in old(Contents()))
      ensures Contents() == if r then old(Contents())[y := x] else old(Contents())
      ensures currentActiveEntries == old(currentActiveEntries) + (if r then 1 else 0)
      ensures !r ==> unchanged(this) && unchanged(table)
      ensures r && old(occupiedCt) < old(table.Length) / 2 ==>
                && table == old(table) && occupiedCt == old(occupiedCt) + 1
                && table[..] == old(table[..])[Locate(old(table[..]), hashCode, y) := HashEntry(x, y, true)]
      ensures r && old(occupiedCt) >= old(table.Length) / 2 ==>
                && fresh(table) && IsNextPrime(2 * old(table.Length), table.Length)
                && occupiedCt == currentActiveEntries && NoTombstones(table[..])
      ensures table == old(table) || fresh(table)
      decreases (if occupiedCt < table.Length / 2 then 0 else 1), 2
    {
      var currentPos := FindPos(y);
      ghost var s := table[..];
      LookupAtLocate(s, hashCode, y);
      if IsLive(table[currentPos]) {
        return false;
      }
      PlaceAtLocate(s, hashCode, x, y);
      table[currentPos] := HashEntry(x, y, true);
      assert table[..] == s[currentPos := HashEntry(x, y, true)];
      currentActiveEntries := currentActiveEntries + 1;
      occupiedCt := occupiedCt + 1;
      if occupiedCt > table.Length / 2 {
        Rehash();
      }
      return true;
    }

    /**
     * `rehash`: allocate `nextPrime(2 * length)` null slots, reset both counters and insert every live
     * entry of the old table again. Deleted entries are dropped.
     */
    method Rehash()
      requires table.Length >= 1 && UniqueLive(table[..])
      modifies this
      ensures fresh(table) && IsNextPrime(2 * old(table.Length), table.Length)
      ensures Valid() && Contents() == old(Contents())
      ensures occupiedCt == currentActiveEntries && NoTombstones(table[..])
      decreases 1, 1
    {
      var oldArray := table;
      ghost var olds := oldArray[..];
      table := AllocateArray(2 * oldArray.Length);
      occupiedCt := 0;
      currentActiveEntries := 0;
      assert NonNullSet(table[..]) == {};
      ActiveMapEmpty(table[..]);
      for i := 0 to oldArray.Length
        invariant fresh(table) && IsNextPrime(2 * oldArray.Length, table.Length)
        invariant oldArray[..] == olds
        invariant Valid()
        invariant Contents() == ActiveMap(olds[..i])
        invariant occupiedCt == currentActiveEntries <= i
        invariant NoTombstones(table[..])
      {
        ActiveMapStep(olds, i);
        Reinsert(oldArray[i]);
      }
      assert olds[..oldArray.Length] == olds;
    }

    /**
     * One turn of the copy loop of `rehash`: a live entry of the old table, whose marker the new table
     * does not hold yet, is inserted again; other slots are skipped. The caller keeps the table under
     * half full, so this insert never rehashes.
     */
    method Reinsert(entry: Slot<E, T>)
      requires Valid() && NoTombstones(table[..]) && occupiedCt == currentActiveEntries < table.Length / 2
      requires IsLive(entry) ==> entry.marker !in Contents()
      modifies this, table
      ensures table == old(table) && Valid() && NoTombstones(table[..])
      ensures Contents() == if IsLive(entry) then old(Contents())[entry.marker := entry.element] else old(Contents())
      ensures occupiedCt == currentActiveEntries == old(currentActiveEntries) + (if IsLive(entry) then 1 else 0)
      decreases 1, 0
    {
      if entry.HashEntry? && entry.isActive {
        var _ := Insert(entry.element, entry.marker);
      }
    }

    /**
     * `remove`: if marker y is live, its entry is marked deleted in place, the size goes down and the
     * answer is true; otherwise nothing changes. `occupiedCt` is never lowered.
     */
    method Remove(y: T) returns (r: bool)
      requires Valid()
      modifies this, table
      ensures Valid()
      ensures r == (y in old(Contents()))
      ensures Contents() == old(Contents()) - {y}
      ensures table == old(table) && occupiedCt == old(occupiedCt)
      ensures currentActiveEntries == old(currentActiveEntries) - (if r then 1 else 0)
      ensures !r ==> table[..] == old(table[..])
      ensures r ==> var q := Locate(old(table[..]), hashCode, y);
                    old(table[q]).HashEntry? && table[..] == old(table[..])[q := old(table[q]).(isActive := false)]
    {
      var currentPos := FindPos(y);
      ghost var s := table[..];
      LookupAtLocate(s, hashCode, y);
      if IsLive(table[currentPos]) {
        TombstoneAtLocate(s, hashCode, y);
        table[currentPos] := table[currentPos].(isActive := false);
        assert table[..] == s[currentPos := s[currentPos].(isActive := false)];
        currentActiveEntries := currentActiveEntries - 1;
        return true;
      }
      assert old(Contents()) - {y} == old(Contents());
      return false;
    }

    /** `size()`: the live-entry counter, which under the invariant is the number of keys. */
    function Size(): (r: int)
      reads this, table
      ensures Valid() ==> r == |Contents()|
    {
      currentActiveEntries
    }

    /** `capacity()`: the table length, an odd prime under the invariant. */
    function Capacity(): (r: int)
      reads this, table
      ensures r == table.Length
      ensures Valid() ==> r % 2 == 1 && IsPrimeNumber(r)
    {
      table.Length
    }

    /** `contains`: whether the slot where the probe for y stops is live. */
    method Contains(y: T) returns (r: bool)
      requires Probeable()
      ensures r == (y in Contents())
    {
      var currentPos := FindPos(y);
      LookupAtLocate(table[..], hashCode, y);
      r := IsLive(table[currentPos]);
    }

    /** `find`: the element filed under y, or nothing (Java's null) when y is not live. */
    method Find(y: T) returns (r: Option<E>)
      requires Probeable()
      ensures r == if y in Contents() then Some(Contents()[y]) else None
    {
      var currentPos := FindPos(y);
      LookupAtLocate(table[..], hashCode, y);
      if !IsLive(table[currentPos]) {
        return None;
      } else {
        return Some(table[currentPos].element);
      }
    }

    /** `doClear`, with the size counter reset as well (see MakeEmptyAsWritten for the code as written). */
    method DoClear()
      requires table.Length % 2 == 1 && IsPrimeNumber(table.Length)
      modifies this, table
      ensures Valid() && Contents() == map[]
      ensures table == old(table) && occupiedCt == 0 && currentActiveEntries == 0
      ensures forall j :: 0 <= j < table.Length ==> table[j] == Null
    {
      occupiedCt := 0;
      currentActiveEntries := 0;
      for i := 0 to table.Length
        invariant forall j :: 0 <= j < i ==> table[j] == Null
        modifies table
      {
        table[i] := Null;
      }
      assert NonNullSet(table[..]) == {};
      ActiveMapEmpty(table[..]);
    }

    /** `makeEmpty`: clear the table. */
    method MakeEmpty()
      requires Valid()
      modifies this, table
      ensures Valid() && Contents() == map[] && Size() == 0
      ensures table == old(table) && occupiedCt == 0
      ensures forall j :: 0 <= j < table.Length ==> table[j] == Null
    {
      DoClear();
    }

    /**
     * `makeEmpty` / `doClear` as written: the slots are nulled and `occupiedCt` is reset, but
     * `currentActiveEntries` keeps its old value, so `size()` goes on reporting the removed entries.
     */
    method MakeEmptyAsWritten()
      requires table.Length % 2 == 1 && IsPrimeNumber(table.Length)
      modifies this, table
      ensures Probeable() && Contents() == map[]
      ensures table == old(table) && occupiedCt == 0
      ensures currentActiveEntries == old(currentActiveEntries)
      ensures forall j :: 0 <= j < table.Length ==> table[j] == Null
    {
      occupiedCt := 0;
      for i := 0 to table.Length
        invariant forall j :: 0 <= j < i ==> table[j] == Null
        modifies table
      {
        table[i] := Null;
      }
      assert NonNullSet(table[..]) == {};
      ActiveMapEmpty(table[..]);
    }

    /** `toString(limit)`: one row per live slot, in slot order, stopping after `limit` rows. */
    method ToString(limit: int, show: E -> string) returns (r: string)
      ensures r == Rows(table[..], Take(LiveIndices(table[..], table.Length), limit), show)
    {
      ghost var s := table[..];
      var sb := "";
      var ct := 0;
      var i := 0;
      while i < table.Length && ct < limit
        invariant 0 <= i <= table.Length
        invariant ct == |LiveIndices(s, i)|
        invariant i > 0 ==> ct <= limit
        invariant sb == Rows(s, LiveIndices(s, i), show)
      {
        RowsStep(s, i, show);
        if table[i].HashEntry? && table[i].isActive {
          sb := sb + Row(i, show(table[i].element));
          ct := ct + 1;
        }
        i := i + 1;
      }
      ScanStopsAtLimit(s, i, ct, limit, show);
      r := sb;
    }

    /** `toString()`: one row per live slot, in slot order. */
    method ToStringAll(show: E -> string) returns (r: string)
      ensures r == Rows(table[..], LiveIndices(table[..], table.Length), show)
    {
      ghost var s := table[..];
      var sb := "";
      for i := 0 to table.Length
        invariant sb == Rows(s, LiveIndices(s, i), show)
      {
        RowsStep(s, i, show);
        if table[i].HashEntry? && table[i].isActive {
          sb := sb + Row(i, show(table[i].element));
        }
      }
      r := sb;
    }
  }

  /**
   * The miscount of `makeEmpty` as written: one insert into a new table, then `makeEmpty`, leaves a
   * table that holds nothing while `size()` still reports one entry.
   */
  method MakeEmptyMiscounts(hashCode: int -> int) returns (t: HashTable<string, int>)
    ensures t.Contents() == map[] && t.Size() == 1
  {
    t := new HashTable<string, int>.Default(hashCode);
    var _ := t.Insert("x", 7);
    assert |t.Contents()| == |map[7 := "x"]| == 1;
    t.MakeEmptyAsWritten();
  }

  /** One row of a dump: the slot index in decimal, ": ", the element's text and a newline. */
  function Row(i: nat, text: string): string {
    IntToString(i) + ": " + text + "\n"
  }

  /** The rows of the given slots, in the given order. */
  function Rows<E, T>(s: seq<Slot<E, T>>, idx: seq<nat>, show: E -> string): string
    requires forall k :: 0 <= k < |idx| ==> idx[k] < |s| && s[idx[k]].HashEntry?
  {
    if |idx| == 0 then ""
    else
      var last := idx[|idx| - 1];
      Rows(s, idx[..|idx| - 1], show) + Row(last, show(s[last].element))
  }

  /** Scanning one more slot appends its row exactly when it is live. */
  lemma RowsStep<E, T>(s: seq<Slot<E, T>>, i: nat, show: E -> string)
    requires i < |s|
    ensures Rows(s, LiveIndices(s, i + 1), show)
            == Rows(s, LiveIndices(s, i), show) + (if IsLive(s[i]) then Row(i, show(s[i].element)) else "")
    ensures |LiveIndices(s, i + 1)| == |LiveIndices(s, i)| + (if IsLive(s[i]) then 1 else 0)
  {
    var idx := LiveIndices(s, i);
    if IsLive(s[i]) {
      assert LiveIndices(s, i + 1) == idx + [i];
      assert (idx + [i])[..|idx|] == idx;
    } else {
      assert LiveIndices(s, i + 1) == idx;
    }
  }

  /**
   * When the scan of `toString(limit)` stops at slot i, either at the end or with `limit` rows, the
   * rows it has are the first `limit` of all live slots.
   */
  lemma ScanStopsAtLimit<E, T>(s: seq<Slot<E, T>>, i: nat, ct: nat, limit: int, show: E -> string)
    requires i <= |s| && ct == |LiveIndices(s, i)|
    requires i > 0 ==> ct <= limit
    requires !(i < |s| && ct < limit)
    ensures Take(LiveIndices(s, |s|), limit) == LiveIndices(s, i)
    ensures Rows(s, Take(LiveIndices(s, |s|), limit), show) == Rows(s, LiveIndices(s, i), show)
  {
    LiveIndicesPrefix(s, i, |s|);
    var all, part := LiveIndices(s, |s|), LiveIndices(s, i);
    if i == |s| {
      if i == 0 {
        assert all == [];
      }
    } else if i == 0 {
      assert part == [];
    } else {
      assert |part| == limit;
    }
  }

  /** The first n items of xs (all of them when there are fewer, none when n is not positive). */
  function Take<X>(xs: seq<X>, n: int): (r: seq<X>)
    ensures |r| <= |xs| && r == xs[..|r|]
    ensures |r| == if n <= 0 then 0 else if n >= |xs| then |xs| else n
  {
    if n <= 0 then [] else if n >= |xs| then xs else xs[..n]
  }
}
