/** A run from construction in which a lookup makes another key unreachable: the case that
    DictState.Loses describes really occurs. Two size-ups pile up while an iteration holds off
    remapping; when it ends, looking up the oldest key pushes an entry that still sits in its old
    bucket past `remapEnd`. */
module DictLoss {
  import opened Options
  import opened DictTable
  import opened DictState
  import opened DictRun

  /** Hashes 2, 1 and 3 have FibHash ending in 010, 101 and 111. */
  lemma Homes()
    ensures Home(2, 1) == 0 && Home(2, 3) == 2
    ensures Home(1, 1) == 1
    ensures Home(3, 2) == 3 && Home(3, 3) == 7
  {
    assert FibHash(2) == 4354685564936845354;
    assert FibHash(1) == 11400714819323198485;
    assert FibHash(3) == 15755400384260043839;
    assert LowBits(4354685564936845354, 3) == 2;
    assert LowBits(4354685564936845354, 1) == 0;
    assert LowBits(11400714819323198485, 1) == 1;
    assert LowBits(15755400384260043839, 3) == 7;
    assert LowBits(15755400384260043839, 2) == 3;
  }

  lemma SmallCapacities()
    ensures Capacity(1) == 3 && Capacity(2) == 6 && Capacity(3) == 11
  {
    assert Pow2(1) == 2 && Pow2(2) == 4 && Pow2(3) == 8;
  }

  /** A new entry in a free slot, or just past the end of a full table. */
  function AtFree(s: Table<int>, key: Key, pos: nat): (s': Table<int>)
    requires Shaped(s) && s.slots != [] && Home(key.hash, s.bits) <= pos <= |s.slots|
  {
    CapacityGrows(s.bits);
    var e := Entry(key, 0, pos - Home(key.hash, s.bits));
    if pos == |s.slots| then Table(Padded(s.slots + [e], Capacity(s.bits + 1)), s.bits + 1, s.remaps + 1, |s.slots|)
    else s.(slots := s.slots[pos := e])
  }

  lemma AddedAtFree(s: Table<int>, key: Key, pos: nat)
    requires Shaped(s) && s.slots != [] && pos == InsertPosition(s, key) && (pos < |s.slots| ==> s.slots[pos].Empty?)
    ensures Added(s, NewEntry(s, key, 0), pos) == AtFree(s, key, pos)
  {
    InsertedEnd(s.slots, NewEntry(s, key, 0), pos);
  }

  ghost predicate Iterating(d: Dict<int>, n: int) {
    Reachable(d) && d.iters == 1 && d.entries == n && !d.ordered
  }

  lemma InsertAtFree(d: Dict<int>, key: Key, pos: nat) returns (d': Dict<int>)
    requires Iterating(d, d.entries) && Shaped(d.table) && d.table.slots != [] && Absent(d.table.slots, key)
    requires pos == InsertPosition(d.table, key) && (pos < |d.table.slots| ==> d.table.slots[pos].Empty?)
    requires d.table.bits <= 2 && d.samples <= 10
    requires d.entries < |d.table.slots| || d.entries == pos == |d.table.slots|
    ensures Iterating(d', d.entries + 1) && d'.table == AtFree(d.table, key, pos) && d'.samples <= d.samples + 1
  {
    hide Swept, Added, InsertPosition, AtFree, Last, Good;
    d' := Step(d, Insert(key, 0)).0;
    ReachableIsGood(d);
    SafeWhen(d, Insert(key, 0));
    ReachableStep(d, Insert(key, 0));
    FindLands(d.table, key);
    AddedAtFree(d.table, key, pos);
    AtFreeSize(d.table, key, pos);
  }

  lemma AtFreeSize(s: Table<int>, key: Key, pos: nat)
    requires Shaped(s) && s.slots != [] && s.bits <= 2 && Home(key.hash, s.bits) <= pos <= |s.slots|
    ensures var s' := AtFree(s, key, pos);
            && s.bits <= s'.bits <= 3
            && |s.slots| + (if pos == |s.slots| then 1 else 0) <= |s'.slots| == Threshold(s'.bits)
  {
    CapacityGrows(s.bits);
  }

  function K(h: Hash32, n: bv8): Key { Key([n], h) }
  function E(h: Hash32, n: bv8, distance: nat): Slot<int> { Entry(K(h, n), 0, distance) }

  function Oldest(): Key { K(2, 0) }
  function Lost(): Key { K(3, 0) }

  /** Four keys; the last one does not fit and doubles the table. */
  lemma FirstSizeUp() returns (d: Dict<int>)
    ensures Iterating(d, 4) && d.samples <= 4
    ensures d.table == Table([E(2, 0, 0), E(1, 0, 0), E(1, 1, 1), E(1, 2, 2), Empty, Empty], 2, 1, 3)
  {
    hide Good, Reachable, InsertPosition;
    Homes();
    SmallCapacities();
    d := BeforeInserts();
    assert d.table.slots == [Empty, Empty, Empty];
    InsertAt(d.table, Oldest(), 0);
    d := InsertAtFree(d, Oldest(), 0);
    assert d.table.slots == [E(2, 0, 0), Empty, Empty];
    InsertAt(d.table, K(1, 0), 1);
    d := InsertAtFree(d, K(1, 0), 1);
    assert d.table.slots == [E(2, 0, 0), E(1, 0, 0), Empty];
    InsertAt(d.table, K(1, 1), 2);
    d := InsertAtFree(d, K(1, 1), 2);
    assert d.table.slots == [E(2, 0, 0), E(1, 0, 0), E(1, 1, 1)];
    InsertAt(d.table, K(1, 2), 3);
    d := InsertAtFree(d, K(1, 2), 3);
    assert d.table.slots == [E(2, 0, 0), E(1, 0, 0), E(1, 1, 1), E(1, 2, 2), Empty, Empty];
  }

  lemma BeforeInserts() returns (d: Dict<int>)
    ensures Iterating(d, 0) && d.samples == 0 && d.table == Table([Empty, Empty, Empty], 1, 0, -1)
  {
    var d0 := New<int>(false, 1, true);
    SmallCapacities();
    assert d0.table.slots == [Empty, Empty, Empty];
    assert ReachedBy<int>(false, 1, true, [], d0);
    d := Step(d0, BeginIteration).0;
    ReachableStep(d0, BeginIteration);
  }

  /** The insert position, from the slots around it. */
  lemma InsertAt(s: Table<int>, key: Key, pos: nat)
    requires Shaped(s) && s.slots != [] && Home(key.hash, s.bits) <= pos <= |s.slots|
    requires pos < |s.slots| ==> s.slots[pos].Empty?
    requires forall i: nat :: Home(key.hash, s.bits) <= i < pos ==>
             s.slots[i].Entry? && Bucket(s.slots, i) <= Home(key.hash, s.bits)
    ensures InsertPosition(s, key) == pos
  {
  }

  /** Three more keys; the last one doubles the table again while the first remap is unfinished. */
  lemma SecondSizeUp() returns (d: Dict<int>)
    ensures Iterating(d, 7)
    ensures d.table == Tangled()
  {
    hide Good, Reachable, InsertPosition;
    Homes();
    SmallCapacities();
    d := FirstSizeUp();
    InsertAt(d.table, Lost(), 4);
    d := InsertAtFree(d, Lost(), 4);
    assert d.table.slots == [E(2, 0, 0), E(1, 0, 0), E(1, 1, 1), E(1, 2, 2), E(3, 0, 1), Empty];
    InsertAt(d.table, K(3, 1), 5);
    d := InsertAtFree(d, K(3, 1), 5);
    assert d.table.slots == [E(2, 0, 0), E(1, 0, 0), E(1, 1, 1), E(1, 2, 2), E(3, 0, 1), E(3, 1, 2)];
    InsertAt(d.table, K(3, 2), 6);
    d := InsertAtFree(d, K(3, 2), 6);
    assert d.table.slots == [E(2, 0, 0), E(1, 0, 0), E(1, 1, 1), E(1, 2, 2), E(3, 0, 1), E(3, 1, 2), E(3, 2, 3),
                             Empty, Empty, Empty, Empty];
  }

  function Tangled(): Table<int> {
    Table([E(2, 0, 0), E(1, 0, 0), E(1, 1, 1), E(1, 2, 2), E(3, 0, 1), E(3, 1, 2), E(3, 2, 3), Empty, Empty, Empty,
        Empty], 3, 2, 6)
  }

  /** Remapping the oldest key moves the head of the cluster that straddles `remapEnd` beyond it. */
  lemma OldestStrands(s: Table<int>)
    requires s == Tangled()
    ensures Shaped(s) && !FreshAt(s.slots, 3, 0) && Strands(s, 0)
    ensures |Moved(s, 0).slots| == 11 && Moved(s, 0).slots[7] == E(3, 0, 4)
    ensures Moved(s, 0).bits == 3 && Moved(s, 0).remapEnd == 6
  {
    hide Put, Home, EndOf;
    Homes();
    TangledWithout(s);
    var t := s.slots[0 := Empty];
    var e := Rehomed(s, 0);
    InsertedTurn(t, e, 4, 6);
    InsertedEnd(t[4 := e], E(3, 0, 4), 7);
    PutMiddle(Without(s, 0), e, 4);
  }

  lemma PutMiddle(s: Table<int>, e: Slot<int>, pos: nat)
    requires Shaped(s) && s.slots != [] && pos <= |s.slots| == |Inserted(s.slots, e, pos)|
    ensures Put(s, e, pos) == s.(slots := Inserted(s.slots, e, pos))
  {
  }

  lemma TangledWithout(s: Table<int>)
    requires s == Tangled()
    ensures Shaped(s) && Removed(s.slots, 0) == s.slots[0 := Empty]
    ensures NewPosition(s, 0) == 4 && EndOf(s.slots[0 := Empty], 4, 5) == 7
  {
    hide ClusterEnd, EndOf, Home;
    Homes();
    SmallCapacities();
    var t := s.slots[0 := Empty];
    var e := EndOf(t, 4, 5);
    assert e != 5 && e != 6 && |t| > 7 && t[7] == Empty;
    assert Bucket(t, 2) == 1 && Bucket(t, 3) == 1 && Bucket(t, 4) == 3 && Bucket(t, 5) == 3 && Bucket(t, 6) == 3;
  }

  /** The loss: a reachable dictionary with no iteration under way, in which one lookup makes the
      next lookup of another, present key come back empty-handed. */
  lemma LookupLosesKey() returns (d: Dict<int>)
    ensures Reachable(d) && Good(d) && d.iters == 0 && d.table.remaps == 2
    ensures Lost() in Map(d) && Loses(d.table, 0, Oldest())
    ensures var d' := Step(d, Lookup(Oldest())).0;
            Lost() in Map(d') && Step(d', Lookup(Lost())).1 == None
  {
    var d1 := SecondSizeUp();
    d := Step(d1, EndIteration).0;
    ReachableIsGood(d1);
    ReachableStep(d1, EndIteration);
    ReachableIsGood(d);
    LosesLost(d);
  }

  lemma LosesLost(d: Dict<int>)
    requires Good(d) && d.iters == 0 && d.table == Tangled()
    ensures Lost() in Map(d) && Loses(d.table, 0, Oldest())
    ensures var d' := Step(d, Lookup(Oldest())).0;
            Lost() in Map(d') && Step(d', Lookup(Lost())).1 == None
  {
    hide Removed, NewPosition, Strands, Moved, Home, Search, Valid, Contents;
    var s := d.table;
    OldestStrands(s);
    FindOldest(s);
    LookedKeeps(s, 0, Oldest());
    var s' := Looked(s, 0, Oldest());
    assert s' == Moved(s, 0);
    Homes();
    SearchExact(s'.slots, s'.bits, s'.remaps, s'.remapEnd, 7);
  }

  lemma FindOldest(s: Table<int>)
    requires Valid(s) && s == Tangled()
    ensures Find(s, Oldest()) == 0 && Lost() in Contents(s.slots)
  {
    hide Removed, Home, Search;
    ContentsAt(s.slots, 0);
    ContentsAt(s.slots, 4);
    FindIsContents(s, Oldest());
  }
}
