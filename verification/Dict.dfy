/** Dictionary: the class that updates its slot array, sizes, counters and order in place. Every
    method is proved to do exactly one step of DictRun; DictRun.StepRefines and RunRefines then say
    what that means for callers. */
module Dictionaries {
  import opened Options
  import opened DictTable
  import opened DictState
  import opened DictRun

  /** floor(log2(n)). */
  function Log2(n: nat): (b: nat)
    requires n > 0
    ensures Pow2(b) <= n < Pow2(b + 1)
  {
    if n == 1 then 0 else 1 + Log2(n / 2)
  }

  class Dictionary<V(!new)> {
    var table: array?<Slot<V>>
    var log2Buckets: nat
    var remaps: nat
    var remapEnd: int
    var numIterators: nat
    var numEntries: int
    var spaceDistanceSamples: nat
    var spaceDistanceSum: int
    const ordered: bool
    var order: seq<Key>

    function Slots(): seq<Slot<V>>
      reads this, table
    {
      if table == null then [] else table[..]
    }

    function State(): Table<V>
      reads this, table
    {
      Table(Slots(), log2Buckets, remaps, remapEnd)
    }

    /** All fields as one value. */
    function Value(): Dict<V>
      reads this, table
    {
      Dict(State(), numEntries, numIterators, spaceDistanceSamples, spaceDistanceSum, ordered, order)
    }

    /** The table has the size its fields say. */
    predicate Fit()
      reads this, table
    {
      Shaped(State()) && (table != null ==> table.Length > 0)
    }

    constructor (isOrdered: bool, initialSize: int)
      ensures Fit() && (table != null ==> fresh(table))
      ensures Value() == New(isOrdered, if initialSize > 0 then Log2(initialSize) else 0, initialSize > 0)
    {
      table := null;
      log2Buckets := if initialSize > 0 then Log2(initialSize) else 0;
      remaps, remapEnd, numIterators, numEntries := 0, -1, 0, 0;
      spaceDistanceSamples, spaceDistanceSum := 0, 0;
      ordered := isOrdered;
      order := [];
      new;
      if initialSize > 0 {
        Init();
      }
    }

    method Init()
      requires Fit() && table == null
      modifies this`table
      ensures Fit() && fresh(table) && State() == Initialised(old(State()))
    {
      table := new Slot<V>[Capacity(log2Buckets)](_ => Empty);
      assert table[..] == Padded<V>([], Capacity(log2Buckets));
    }

    method SizeUp()
      requires Fit() && table != null
      modifies this`table, this`log2Buckets, this`remaps, this`remapEnd, this`spaceDistanceSamples,
               this`spaceDistanceSum
      ensures Fit() && fresh(table) && State() == SizedUp(old(State()))
      ensures spaceDistanceSamples == 0 && spaceDistanceSum == 0
    {
      var prev, prevCapacity := table, table.Length;
      log2Buckets := log2Buckets + 1;
      CapacityGrows(log2Buckets - 1);
      table := new Slot<V>[Capacity(log2Buckets)](i requires 0 <= i reads prev => if i < prev.Length then prev[i]
          else Empty);
      assert table[..] == Padded(prev[..], Capacity(log2Buckets));
      remapEnd := prevCapacity;
      remaps := remaps + 1;
      spaceDistanceSamples, spaceDistanceSum := 0, 0;
    }

    method TailOfClusterByPosition(position: nat) returns (tail: nat)
      requires table != null && position < table.Length && table[position].Entry?
      ensures tail + 1 == EndOf(table[..], position, position + 1)
    {
      var bucket := position - table[position].distance;
      var i := position + 1;
      while i < table.Length && table[i].Entry? && i - table[i].distance == bucket
        invariant position < i <= table.Length
        invariant EndOf(table[..], position, position + 1) == EndOf(table[..], position, i)
      {
        i := i + 1;
      }
      tail := i - 1;
    }

    method EndOfClusterByBucket(bucket: nat) returns (i: nat)
      requires table != null && bucket <= table.Length
      ensures i == ClusterEnd(table[..], bucket, bucket)
    {
      i := bucket;
      while i < table.Length && table[i].Entry? && i - table[i].distance <= bucket
        invariant bucket <= i <= table.Length
        invariant ClusterEnd(table[..], bucket, bucket) == ClusterEnd(table[..], bucket, i)
      {
        i := i + 1;
      }
    }

    method InsertAndRelocate(entry: Slot<V>, insertPosition: nat) returns (lastAffected: nat)
      requires Fit() && table != null && insertPosition <= table.Length
      modifies this`table, this`log2Buckets, this`remaps, this`remapEnd, this`spaceDistanceSamples,
               this`spaceDistanceSum, table
      ensures Fit() && table != null && (table == old(table) || fresh(table))
      ensures State() == Put(old(State()), entry, insertPosition)
      ensures lastAffected == Last(old(Slots()), insertPosition)
      ensures if log2Buckets > old(log2Buckets) then spaceDistanceSamples == 0 && spaceDistanceSum == 0
              else spaceDistanceSamples == old(spaceDistanceSamples) && spaceDistanceSum == old(spaceDistanceSum)
    {
      hide EndOf, Inserted, Last;
      ghost var t0 := table[..];
      var e, p := entry, insertPosition;
      while p < table.Length && table[p].Entry?
        invariant p <= table.Length
        invariant Inserted(table[..], e, p) == Inserted(t0, entry, insertPosition)
        invariant Last(table[..], p) == Last(t0, insertPosition)
        modifies table
        decreases table.Length - p
      {
        var t := table[p];
        var tail := TailOfClusterByPosition(p);
        ghost var before := table[..];
        InsertedTurn(before, e, p, tail);
        table[p] := e;
        assert table[..] == before[p := e];
        e := t.(distance := t.distance + (tail + 1 - p));
        p := tail + 1;
      }
      ghost var chained := table[..];
      InsertedEnd(chained, e, p);
      lastAffected := p;
      if p == table.Length {
        SizeUp();
        table[p] := e;
        assert table[..] == Padded(chained, Capacity(log2Buckets))[p := e] ==
               Padded(chained + [e], Capacity(log2Buckets));
      } else {
        table[p] := e;
        assert table[..] == chained[p := e];
      }
    }

    method RemoveAndRelocate(position: nat) returns (entry: Slot<V>)
      requires Fit() && table != null && position < table.Length && table[position].Entry?
      modifies table
      ensures Fit() && State() == Without(old(State()), position) && entry == old(table[position])
    {
      hide EndOf, Removed;
      entry := table[position];
      ghost var t0 := table[..];
      var p := position;
      while p + 1 < table.Length && table[p + 1].Entry? && table[p + 1].distance > 0
        invariant p < table.Length && table[p].Entry?
        invariant Removed(table[..], p) == Removed(t0, position)
        modifies table
        decreases table.Length - p
      {
        var next := TailOfClusterByPosition(p + 1);
        ghost var before := table[..];
        RemovedTurn(before, p, next);
        table[p] := table[next].(distance := table[next].distance - (next - p));
        assert table[..] == before[p := table[p]];
        p := next;
      }
      ghost var chained := table[..];
      RemovedStop(chained, p);
      table[p] := Empty;
      assert table[..] == chained[p := Empty];
    }

    /** Remap(position): returns false when the entry already sits in its current bucket. */
    method RemapAt(position: nat) returns (moved: bool, newPosition: nat)
      requires Fit() && table != null && position < table.Length && table[position].Entry?
      modifies this`table, this`log2Buckets, this`remaps, this`remapEnd, this`spaceDistanceSamples,
               this`spaceDistanceSum, table
      ensures Fit() && table != null && (table == old(table) || fresh(table))
      ensures moved == !FreshAt(old(Slots()), old(log2Buckets), position)
      ensures State() == if moved then Moved(old(State()), position) else old(State())
      ensures newPosition == if moved then NewPosition(old(State()), position) else position
      ensures Value() == WithTable(old(Value()), State())
    {
      hide Put, Removed, ClusterEnd, Home, Padded;
      var current := position - table[position].distance;
      var expected := Home(table[position].key.hash, log2Buckets);
      if current == expected {
        return false, position;
      }
      var entry := RemoveAndRelocate(position);
      var insertPosition := EndOfClusterByBucket(expected);
      var _ := InsertAndRelocate(entry.(distance := insertPosition - expected), insertPosition);
      return true, insertPosition;
    }

    /** The table as the sweep sees it: below slot 0 there is no earlier size left. */
    ghost function SweepState(): Table<V>
      reads this, table
    {
      if remapEnd < 0 then State().(remaps := 0) else State()
    }

    /** One turn of the remap loop: relocate the entry at `remapEnd` or step below it. */
    method SweepOne() returns (moved: bool)
      requires Fit() && remapEnd >= 0
      modifies this`table, this`log2Buckets, this`remaps, this`remapEnd, this`spaceDistanceSamples,
               this`spaceDistanceSum, table
      ensures Fit() && (table == old(table) || fresh(table))
      ensures moved == Outdated(old(State()), old(remapEnd))
      ensures SweepState() == if moved then Moved(old(State()), old(remapEnd)) else Lowered(old(State()))
      ensures Value() == WithTable(old(Value()), State())
      ensures log2Buckets >= old(log2Buckets) && (moved ==> remapEnd >= 0) && (!moved ==> remapEnd == old(remapEnd) - 1)
    {
      hide Moved, FreshAt;
      moved := false;
      if table[remapEnd].Entry? {
        var newPosition;
        moved, newPosition := RemapAt(remapEnd);
      }
      if !moved {
        remapEnd := remapEnd - 1;
      }
    }

    /** One round of remapping, bottom up. */
    method Remap()
      requires Fit() && remapEnd >= 0
      modifies this`table, this`log2Buckets, this`remaps, this`remapEnd, this`spaceDistanceSamples,
               this`spaceDistanceSum, table
      ensures Fit() && (table == old(table) || fresh(table))
      ensures State() == if numIterators > 0 then old(State()) else Swept(old(State()), REMAP_ENTRIES)
      ensures Value() == WithTable(old(Value()), State())
    {
      hide Swept, Moved, Lowered, Outdated;
      if numIterators > 0 {
        return;
      }
      var left := REMAP_ENTRIES;
      while remapEnd >= 0 && left > 0
        invariant Fit() && (table == old(table) || fresh(table)) && numIterators == 0
        invariant log2Buckets >= old(log2Buckets)
        invariant Shaped(SweepState()) && Swept(SweepState(), left) == Swept(old(State()), REMAP_ENTRIES)
        invariant Value() == WithTable(old(Value()), State())
        decreases left, remapEnd + 1
      {
        SweptTurn(State(), left);
        var moved := SweepOne();
        if moved {
          left := left - 1;
        }
      }
      SweptTurn(SweepState(), left);
      if remapEnd < 0 {
        remaps := 0;
      }
    }

    /** The cluster scan of one table size, with the slot where the key would be inserted. */
    method LookupIndexFrom(key: Key, begin: nat, end: nat) returns (position: int, insertPosition: nat)
      requires table != null && begin <= end <= table.Length
      ensures position == Probe(table[..], key, begin, end, begin)
      ensures position < 0 && end == table.Length ==> insertPosition == ClusterEnd(table[..], begin, begin)
    {
      var i := begin;
      while i < end && table[i].Entry? && i - table[i].distance <= begin
        invariant begin <= i <= end
        invariant Probe(table[..], key, begin, end, begin) == Probe(table[..], key, begin, end, i)
        invariant ClusterEnd(table[..], begin, begin) == ClusterEnd(table[..], begin, i)
      {
        if i - table[i].distance == begin && table[i].key == key {
          return i, i;
        }
        i := i + 1;
      }
      return -1, i;
    }

    /** The probes of the current and all previous table sizes. */
    method FindIndex(key: Key) returns (position: int, insertPosition: nat)
      requires Fit()
      ensures position == Find(State(), key)
      ensures position < 0 && table != null ==> insertPosition == InsertPosition(State(), key)
    {
      hide Home, Probe, ClusterEnd;
      ghost var s := State();
      if table == null {
        FindLands(s, key);
        return -1, 0;
      }
      var bucket := Home(key.hash, log2Buckets);
      position, insertPosition := LookupIndexFrom(key, bucket, table.Length);
      if position >= 0 {
        return;
      }
      var i := 1;
      while i <= remaps && position < 0
        invariant 1 <= i <= remaps + 1 && -1 <= position < table.Length
        invariant SearchOld(s.slots, key, s.bits, s.remaps, s.remapEnd, 1) ==
                  if position >= 0 then position else SearchOld(s.slots, key, s.bits, s.remaps, s.remapEnd, i)
      {
        var prevBucket := Home(key.hash, log2Buckets - i);
        if prevBucket <= remapEnd {
          var notUsed;
          position, notUsed := LookupIndexFrom(key, prevBucket, remapEnd + 1);
        }
        i := i + 1;
      }
    }

    /** Look the key up; an entry found in an earlier table size is remapped at once unless an
        iteration is under way. */
    method LookupIndex(key: Key) returns (position: int, insertPosition: nat)
      requires Fit()
      modifies this`table, this`log2Buckets, this`remaps, this`remapEnd, this`spaceDistanceSamples,
               this`spaceDistanceSum, table
      ensures Fit() && (table == old(table) || fresh(table)) && (old(table) != null ==> table != null)
      ensures State() == Looked(old(State()), numIterators, key)
      ensures position == Position(old(State()), numIterators, key)
      ensures position < 0 && table != null ==> insertPosition == InsertPosition(old(State()), key)
      ensures Value() == WithTable(old(Value()), State())
    {
      hide Find, Moved, NewPosition, FreshAt, InsertPosition;
      FindLands(State(), key);
      position, insertPosition := FindIndex(key);
      if position >= 0 && numIterators == 0 {
        var _, p := RemapAt(position);
        position := p;
      }
    }

    method Lookup(key: Key) returns (value: Option<V>)
      requires Fit()
      modifies this`table, this`log2Buckets, this`remaps, this`remapEnd, this`spaceDistanceSamples,
               this`spaceDistanceSum, table
      ensures Fit() && (table == old(table) || fresh(table))
      ensures (Value(), value) == Step(old(Value()), Op.Lookup(key))
    {
      var position, _ := LookupIndex(key);
      value := if position >= 0 then Some(table[position].value) else None;
    }

    method Insert(key: Key, val: V) returns (previous: Option<V>)
      requires Fit()
      modifies this, table
      ensures Fit() && (table == old(table) || fresh(table))
      ensures (Value(), previous) == Step(old(Value()), Op.Insert(key, val))
    {
      hide Placed, Swept;
      previous := Place(key, val);
      if remapEnd >= 0 {
        Remap();
      }
    }

    /** Insert without the round of remapping at its end. */
    method Place(key: Key, val: V) returns (previous: Option<V>)
      requires Fit()
      modifies this, table
      ensures Fit() && (table == old(table) || fresh(table))
      ensures Value() == Placed(old(Value()), key, val)
      ensures var s := Initialised(old(State()));
              previous == ValueAt(Looked(s, old(numIterators), key), Position(s, old(numIterators), key))
    {
      hide Looked, Position, Appended, Overwritten, SizedUp, WantsSizeUp, Padded, InsertPosition;
      if table == null {
        Init();
      }
      var position, insertPosition := LookupIndex(key);
      if position >= 0 {
        previous := Some(table[position].value);
        Overwrite(position, val);
      } else {
        previous := None;
        AddEntry(key, val, insertPosition);
      }
    }

    method Overwrite(position: nat, val: V)
      requires Fit() && table != null && position < table.Length && table[position].Entry?
      modifies table
      ensures Fit() && State() == Overwritten(old(State()), position, val)
    {
      ghost var t := table[..];
      table[position] := table[position].(value := val);
      assert table[..] == t[position := table[position]];
    }

    /** The part of Insert for a key that is not in the table. */
    method AddEntry(key: Key, val: V, insertPosition: nat)
      requires Fit() && table != null && insertPosition == InsertPosition(State(), key)
      modifies this, table
      ensures Fit() && table != null && (table == old(table) || fresh(table))
      ensures var d1 := Appended(old(Value()), key, val);
              Value() == if WantsSizeUp(d1) then WithTable(d1, SizedUp(d1.table)) else d1
    {
      hide Added, InsertPosition, Last, SizedUp, Home, Threshold, WantsSizeUp;
      if ordered {
        order := order + [key];
      }
      var entry := Entry(key, val, insertPosition - Home(key.hash, log2Buckets));
      InsertRelocateAndAdjust(entry, insertPosition);
      numEntries := numEntries + 1;
      var full := NeedsSizeUp();
      if full {
        SizeUp();
      }
    }

    /** Is the table too full, or are free slots too far away? */
    method NeedsSizeUp() returns (full: bool)
      requires Fit() && table != null
      ensures full == WantsSizeUp(Value())
    {
      hide Threshold;
      if numEntries > Threshold(log2Buckets) {
        return true;
      }
      full := spaceDistanceSamples > MIN_SPACE_DISTANCE_SAMPLES
              && spaceDistanceSum > spaceDistanceSamples * SPACE_DISTANCE_THRESHOLD
              && numEntries > MIN_LOAD_FACTOR_100 * table.Length / 100;
    }

    method InsertRelocateAndAdjust(entry: Slot<V>, insertPosition: nat)
      requires Fit() && table != null && insertPosition <= table.Length
      modifies this`table, this`log2Buckets, this`remaps, this`remapEnd, this`spaceDistanceSamples,
               this`spaceDistanceSum, table
      ensures Fit() && table != null && (table == old(table) || fresh(table))
      ensures State() == Added(old(State()), entry, insertPosition)
      ensures spaceDistanceSamples == (if log2Buckets > old(log2Buckets) then 0 else old(spaceDistanceSamples)) + 1
      ensures spaceDistanceSum == (if log2Buckets > old(log2Buckets) then 0 else old(spaceDistanceSum))
                                  + (Last(old(Slots()), insertPosition) - insertPosition)
    {
      ghost var s := State();
      var lastAffected := InsertAndRelocate(entry, insertPosition);
      InsertedAfter(s.slots, entry, insertPosition);
      spaceDistanceSum := spaceDistanceSum + (lastAffected - insertPosition);
      spaceDistanceSamples := spaceDistanceSamples + 1;
      if remapEnd >= 0 && insertPosition <= remapEnd < lastAffected {
        remapEnd := lastAffected;
      }
    }

    method Remove(key: Key) returns (value: Option<V>)
      requires Fit()
      modifies this, table
      ensures Fit() && (table == old(table) || fresh(table))
      ensures (Value(), value) == Step(old(Value()), Op.Remove(key))
    {
      hide Looked, Position, Without;
      var position, _ := LookupIndex(key);
      if position < 0 {
        return None;
      }
      var entry := RemoveAndRelocate(position);
      numEntries := numEntries - 1;
      order := EraseKey(order, key);
      return Some(entry.value);
    }

    /** Erase the first entry of the order list that equals `key`. */
    static method EraseKey(keys: seq<Key>, key: Key) returns (rest: seq<Key>)
      ensures rest == Erased(keys, key)
    {
      var i := 0;
      while i < |keys| && keys[i] != key
        invariant i <= |keys| && forall j :: 0 <= j < i ==> keys[j] != key
      {
        i := i + 1;
      }
      ErasedAt(keys, key, i);
      rest := if i < |keys| then keys[..i] + keys[i + 1..] else keys;
    }

    method NthEntry(n: int) returns (value: Option<V>)
      requires Fit() && (ordered ==> numEntries <= |order|)
      modifies this`table, this`log2Buckets, this`remaps, this`remapEnd, this`spaceDistanceSamples,
               this`spaceDistanceSum, table
      ensures Fit() && (table == old(table) || fresh(table))
      ensures (Value(), value) == Step(old(Value()), Op.NthEntry(n))
    {
      if !ordered || n < 0 || n >= numEntries {
        return None;
      }
      value := Lookup(order[n]);
    }
  }
}
