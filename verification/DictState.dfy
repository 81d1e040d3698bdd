/** The whole state of the table (slots, current size, unfinished size-ups) and what each step of
    Dictionary does to it. */
module DictState {
  import opened DictTable

  datatype Table<V> = Table(slots: seq<Slot<V>>, bits: nat, remaps: nat, remapEnd: int)

  /** The sizes fit together: enough to run any step. */
  predicate Shaped<V>(s: Table<V>) {
    && (s.slots == [] || |s.slots| == Capacity(s.bits))
    && s.remaps <= s.bits
    && -1 <= s.remapEnd < |s.slots|
  }

  ghost predicate SoundTable<V(!new)>(s: Table<V>)
    ensures SoundTable(s) ==> Shaped(s)
  {
    Sound(s.slots, s.bits, s.remaps, s.remapEnd)
  }

  ghost predicate Valid<V(!new)>(s: Table<V>)
    ensures Valid(s) ==> Shaped(s)
  {
    Inv(s.slots, s.bits, s.remaps, s.remapEnd)
  }

  /** Position of a key, or -1: LookupIndex without its side effect. */
  function Find<V>(s: Table<V>, key: Key): (p: int)
    requires Shaped(s)
    ensures -1 <= p < |s.slots|
  {
    Search(s.slots, key, s.bits, s.remaps, s.remapEnd)
  }

  // ---------------------------------------------------------------- the map a table stands for

  function Keys<V>(t: seq<Slot<V>>): set<Key> {
    set i: nat | i < |t| && t[i].Entry? :: t[i].key
  }

  /** The finite map held by the slots. */
  function Contents<V>(t: seq<Slot<V>>): (m: map<Key, V>) {
    map k | k in Keys(t) :: t[Scan(t, k, 0)].value
  }

  ghost predicate Has<V>(m: map<Key, V>, k: Key, v: V) { k in m && m[k] == v }

  ghost predicate HasItem<V(!new)>(items: iset<Item<V>>, k: Key, v: V) {
    exists b :: Item(k, v, b) in items
  }

  lemma ContentsAt<V(!new)>(t: seq<Slot<V>>, i: nat)
    requires Distinct(t) && i < |t| && t[i].Entry?
    ensures Has(Contents(t), t[i].key, t[i].value)
  {
    assert t[i].key in Keys(t);
    var s := Scan(t, t[i].key, 0);
    assert s == i;
  }

  lemma ContentsIsItems<V(!new)>(t: seq<Slot<V>>, k: Key, v: V)
    requires Distinct(t)
    ensures Has(Contents(t), k, v) <==> HasItem(Items(t), k, v)
  {
    if Has(Contents(t), k, v) {
      var i: nat :| i < |t| && t[i].Entry? && t[i].key == k;
      ContentsAt(t, i);
      assert ItemAt(t, i) == Item(k, v, Bucket(t, i));
    }
    if HasItem(Items(t), k, v) {
      var b :| Item(k, v, b) in Items(t);
      var i: nat :| i < |t| && t[i].Entry? && ItemAt(t, i) == Item(k, v, b);
      ContentsAt(t, i);
    }
  }

  lemma SameContents<V(!new)>(t: seq<Slot<V>>, m: map<Key, V>)
    requires Distinct(t) && forall k, v :: Has(m, k, v) <==> HasItem(Items(t), k, v)
    ensures Contents(t) == m
  {
    forall k, v ensures Has(Contents(t), k, v) <==> Has(m, k, v) {
      ContentsIsItems(t, k, v);
    }
    forall k ensures k in Contents(t) <==> k in m {
      if k in Contents(t) { assert Has(Contents(t), k, Contents(t)[k]); }
      if k in m { assert Has(m, k, m[k]); }
    }
    forall k | k in m ensures Contents(t)[k] == m[k] {
      assert Has(m, k, m[k]);
    }
  }

  /** A key is in the map exactly when the search finds it, and then at a slot with its value. */
  lemma FindIsContents<V(!new)>(s: Table<V>, key: Key)
    requires Valid(s)
    ensures var p := Find(s, key);
            if p >= 0 then s.slots[p].Entry? && s.slots[p].key == key && Has(Contents(s.slots), key, s.slots[p].value)
            else key !in Contents(s.slots) && Absent(s.slots, key)
  {
    SearchIsScan(s.slots, key, s.bits, s.remaps, s.remapEnd);
    if Find(s, key) >= 0 {
      ContentsAt(s.slots, Find(s, key));
    }
  }

  // ---------------------------------------------------------------- size-up

  function Padded<V>(t: seq<Slot<V>>, n: nat): (t': seq<Slot<V>>)
    requires |t| <= n
    ensures |t'| == n && t'[..|t|] == t && forall i :: |t| <= i < n ==> t'[i].Empty?
  {
    t + seq(n - |t|, _ => Empty)
  }

  lemma PaddedKeeps<V(!new)>(t: seq<Slot<V>>, n: nat)
    requires Clustered(t) && Distinct(t) && |t| <= n
    ensures Clustered(Padded(t, n)) && Distinct(Padded(t, n)) && Items(Padded(t, n)) == Items(t)
  {
    var u := Padded(t, n);
    assert forall i: nat :: i < |t| ==> u[i] == t[i];
    forall i: nat | i < |u| ensures OkAt(u, i) {
      if i < |t| {
        assert OkAt(t, i);
      }
    }
    forall it ensures it in Items(u) <==> it in Items(t) {
      if it in Items(u) {
        var i: nat :| i < |u| && u[i].Entry? && ItemAt(u, i) == it;
        assert ItemAt(t, i) == it;
      }
      if it in Items(t) {
        var i: nat :| i < |t| && t[i].Entry? && ItemAt(t, i) == it;
        assert ItemAt(u, i) == it;
      }
    }
  }

  lemma CapacityGrows(bits: nat)
    ensures Capacity(bits) + 1 < Capacity(bits + 1)
  {
  }

  /** Double the bucket count; entries stay where they are and will be remapped from the old end down. */
  function SizedUp<V>(s: Table<V>): (s': Table<V>)
    requires Shaped(s) && s.slots != []
    ensures Shaped(s') && s'.slots != [] && s'.bits == s.bits + 1
  {
    CapacityGrows(s.bits);
    Table(Padded(s.slots, Capacity(s.bits + 1)), s.bits + 1, s.remaps + 1, |s.slots|)
  }

  lemma KnownGrows<V(!new)>(items: iset<Item<V>>, bits: nat, remaps: nat)
    requires forall it :: it in items ==> KnownItem(it, bits, remaps)
    ensures forall it :: it in items ==> KnownItem(it, bits + 1, remaps + 1)
  {
    forall it | it in items ensures KnownItem(it, bits + 1, remaps + 1) {
      assert KnownItem(it, bits, remaps);
      var s: nat :| bits - remaps <= s <= bits && it.bucket == Home(it.key.hash, s);
      assert bits + 1 - (remaps + 1) <= s;
    }
  }

  lemma SizedUpKeeps<V(!new)>(s: Table<V>)
    requires Valid(s) && s.slots != []
    ensures Valid(SizedUp(s)) && Contents(SizedUp(s).slots) == Contents(s.slots)
  {
    CapacityGrows(s.bits);
    PaddedKeeps(s.slots, Capacity(s.bits + 1));
    KnownGrows(Items(s.slots), s.bits, s.remaps);
    forall k, v { ContentsIsItems(s.slots, k, v); }
    SameContents(SizedUp(s).slots, Contents(s.slots));
  }

  // ---------------------------------------------------------------- placing an entry

  /** Run the insertion chain; if it runs off the end, the table is doubled under it. */
  function Put<V>(s: Table<V>, e: Slot<V>, pos: nat): (s': Table<V>)
    requires Shaped(s) && s.slots != [] && pos <= |s.slots|
    ensures Shaped(s') && |s'.slots| >= |s.slots| && s'.bits >= s.bits && s'.remapEnd >= s.remapEnd
  {
    var t := Inserted(s.slots, e, pos);
    CapacityGrows(s.bits);
    if |t| > |s.slots| then
      Table(Padded(t, Capacity(s.bits + 1)), s.bits + 1, s.remaps + 1, |s.slots|)
    else s.(slots := t)
  }

  ghost predicate Fresh<V>(e: Slot<V>, pos: nat, bits: nat) {
    e.Entry? && pos - e.distance == Home(e.key.hash, bits)
  }

  lemma KnownPlus<V(!new)>(items: iset<Item<V>>, key: Key, v: V, bits: nat, remaps: nat)
    requires forall it :: it in items ==> KnownItem(it, bits, remaps)
    ensures forall it :: it in items + iset{Item(key, v, Home(key.hash, bits))} ==> KnownItem(it, bits, remaps)
  {
    assert KnownHome(key.hash, Home(key.hash, bits), bits, remaps);
  }

  /** Placing an entry in its current bucket keeps everything but, possibly, the freshness of what
      lies above `remapEnd`. */
  lemma PutKeeps<V(!new)>(s: Table<V>, e: Slot<V>, pos: nat)
    requires SoundTable(s) && s.slots != [] && Fits(s.slots, e, pos) && Absent(s.slots, e.key) && Fresh(e, pos, s.bits)
    ensures var s' := Put(s, e, pos);
            && SoundTable(s')
            && pos < |s'.slots| && s'.slots[pos] == e
            && Items(s'.slots) == Items(s.slots) + iset{Item(e.key, e.value, Home(e.key.hash, s.bits))}
            && (s'.remaps == s.remaps + 1 || s' == s.(slots := s'.slots))
  {
    hide Inserted, Home, Capacity, Clustered, Distinct;
    var t := Inserted(s.slots, e, pos);
    InsertedKeeps(s.slots, e, pos);
    InsertedAt(s.slots, e, pos);
    KnownPlus(Items(s.slots), e.key, e.value, s.bits, s.remaps);
    if |t| > |s.slots| {
      GrownSound(t, s.bits, s.remaps);
    }
  }

  lemma GrownSound<V(!new)>(t: seq<Slot<V>>, bits: nat, remaps: nat)
    requires remaps <= bits && |t| == Capacity(bits) + 1 && Clustered(t) && Distinct(t) && Known(t, bits, remaps)
    ensures |t| < Capacity(bits + 1)
    ensures var t' := Padded(t, Capacity(bits + 1));
            Sound(t', bits + 1, remaps + 1, Capacity(bits)) && Items(t') == Items(t)
  {
    CapacityGrows(bits);
    PaddedKeeps(t, Capacity(bits + 1));
    KnownGrows(Items(t), bits, remaps);
  }

  /** `remapEnd` after an insertion: moved to the last touched slot when that lies beyond it. */
  function Adjusted<V>(s: Table<V>, pos: nat, last: nat): (s': Table<V>)
    requires Shaped(s) && last < |s.slots|
    ensures Shaped(s')
  {
    if 0 <= s.remapEnd && pos <= s.remapEnd < last then s.(remapEnd := last) else s
  }

  /** Insert of a new key, before any size-up it triggers. */
  function Added<V>(s: Table<V>, e: Slot<V>, pos: nat): (s': Table<V>)
    requires Shaped(s) && s.slots != [] && pos <= |s.slots|
    ensures Shaped(s') && s'.slots != [] && s'.bits >= s.bits
  {
    InsertedAfter(s.slots, e, pos);
    CapacityGrows(s.bits);
    Adjusted(Put(s, e, pos), pos, Last(s.slots, pos))
  }

  lemma AddedKeeps<V(!new)>(s: Table<V>, e: Slot<V>, pos: nat)
    requires Valid(s) && s.slots != [] && Fits(s.slots, e, pos) && Absent(s.slots, e.key) && Fresh(e, pos, s.bits)
    ensures Valid(Added(s, e, pos))
    ensures Contents(Added(s, e, pos).slots) == Contents(s.slots)[e.key := e.value]
  {
    var s', last := Put(s, e, pos), Last(s.slots, pos);
    PutKeeps(s, e, pos);
    InsertedAfter(s.slots, e, pos);
    if |Inserted(s.slots, e, pos)| == |s.slots| {
      if pos <= s.remapEnd {
        var re := Added(s, e, pos).remapEnd;
        forall i: nat | re < i < |s'.slots| ensures FreshAt(s'.slots, s.bits, i) {
          assert FreshAt(s.slots, s.bits, i);
        }
      } else {
        InsertedFresh(s.slots, e, pos, s.bits, s.remapEnd);
      }
    }
    var m := Contents(s.slots)[e.key := e.value];
    forall k, v ensures Has(m, k, v) <==> HasItem(Items(s'.slots), k, v) {
      ContentsIsItems(s.slots, k, v);
      assert Item(e.key, e.value, Home(e.key.hash, s.bits)) in Items(s'.slots);
      AbsentItems(s.slots, e.key, v);
    }
    SameContents(s'.slots, m);
  }

  lemma AbsentItems<V(!new)>(t: seq<Slot<V>>, k: Key, v: V)
    requires Absent(t, k)
    ensures !HasItem(Items(t), k, v)
  {
  }

  // ---------------------------------------------------------------- taking an entry out

  function Without<V>(s: Table<V>, p: nat): (s': Table<V>)
    requires Shaped(s) && p < |s.slots| && s.slots[p].Entry?
    ensures Shaped(s') && s'.slots != []
  {
    s.(slots := Removed(s.slots, p))
  }

  lemma WithoutItems<V(!new)>(s: Table<V>, p: nat)
    requires SoundTable(s) && p < |s.slots| && s.slots[p].Entry?
    ensures SoundTable(Without(s, p)) && Absent(Without(s, p).slots, s.slots[p].key)
    ensures Items(Without(s, p).slots) == ItemsBut(s.slots, p)
    ensures FreshAbove(s.slots, s.bits, s.remapEnd) ==> FreshAbove(Without(s, p).slots, s.bits, s.remapEnd)
  {
    var t, t' := s.slots, Removed(s.slots, p);
    RemovedKeeps(t, p);
    assert Items(t') == ItemsBut(t, p) <= Items(t);
    forall i: nat | i < |t'| && t'[i].Entry? ensures t'[i].key != t[p].key {
      assert ItemAt(t', i) in Items(t');
      var j: nat :| j < |t| && j != p && t[j].Entry? && ItemAt(t, j) == ItemAt(t', i);
    }
    if FreshAbove(t, s.bits, s.remapEnd) {
      RemovedFresh(t, p, s.bits, s.remapEnd);
    }
  }

  lemma ItemsButKey<V(!new)>(t: seq<Slot<V>>, p: nat, k: Key, v: V)
    requires Distinct(t) && p < |t| && t[p].Entry?
    ensures HasItem(ItemsBut(t, p), k, v) <==> k != t[p].key && HasItem(Items(t), k, v)
  {
    if HasItem(ItemsBut(t, p), k, v) {
      var b :| Item(k, v, b) in ItemsBut(t, p);
      var i: nat :| i < |t| && i != p && t[i].Entry? && ItemAt(t, i) == Item(k, v, b);
    }
    if k != t[p].key && HasItem(Items(t), k, v) {
      var b :| Item(k, v, b) in Items(t);
      var i: nat :| i < |t| && t[i].Entry? && ItemAt(t, i) == Item(k, v, b);
      assert Item(k, v, b) in ItemsBut(t, p);
    }
  }

  /** Removal takes away exactly one key, whatever mixture of table sizes is present. */
  lemma WithoutKeeps<V(!new)>(s: Table<V>, p: nat)
    requires Valid(s) && p < |s.slots| && s.slots[p].Entry?
    ensures Valid(Without(s, p))
    ensures Contents(Without(s, p).slots) == Contents(s.slots) - {s.slots[p].key}
  {
    WithoutItems(s, p);
    var m := Contents(s.slots) - {s.slots[p].key};
    forall k, v ensures Has(m, k, v) <==> HasItem(Items(Without(s, p).slots), k, v) {
      ContentsIsItems(s.slots, k, v);
      ItemsButKey(s.slots, p, k, v);
    }
    SameContents(Without(s, p).slots, m);
  }

  // ---------------------------------------------------------------- remapping one entry

  /** Where the entry at `p` goes when it is remapped. */
  function NewPosition<V>(s: Table<V>, p: nat): (pos: nat)
    requires Shaped(s) && p < |s.slots| && s.slots[p].Entry?
    ensures pos <= |s.slots|
  {
    var home := Home(s.slots[p].key.hash, s.bits);
    ClusterEnd(Removed(s.slots, p), home, home)
  }

  function Rehomed<V>(s: Table<V>, p: nat): Slot<V>
    requires Shaped(s) && p < |s.slots| && s.slots[p].Entry?
  {
    var home := Home(s.slots[p].key.hash, s.bits);
    assert NewPosition(s, p) >= home;
    s.slots[p].(distance := NewPosition(s, p) - home)
  }

  /** Remap(position) for an entry that is not in its current bucket. */
  function Moved<V>(s: Table<V>, p: nat): (s': Table<V>)
    requires Shaped(s) && p < |s.slots| && s.slots[p].Entry?
    ensures Shaped(s') && |s'.slots| >= |s.slots| && s'.bits >= s.bits && s'.remapEnd >= s.remapEnd
  {
    Put(Without(s, p), Rehomed(s, p), NewPosition(s, p))
  }

  /** The remap of the entry at `p` carries an out-of-date entry across `remapEnd`, and the table
      is not doubled on the way. */
  predicate Strands<V>(s: Table<V>, p: nat)
    requires Shaped(s) && p < |s.slots| && s.slots[p].Entry?
  {
    var t, pos := Removed(s.slots, p), NewPosition(s, p);
    Last(t, pos) < |t| && Carries(t, pos, s.bits, s.remapEnd)
  }

  lemma RehomedFits<V(!new)>(s: Table<V>, p: nat)
    requires SoundTable(s) && p < |s.slots| && s.slots[p].Entry?
    ensures Fits(Without(s, p).slots, Rehomed(s, p), NewPosition(s, p))
    ensures Fresh(Rehomed(s, p), NewPosition(s, p), s.bits)
  {
  }

  /** Remapping moves one item to its current bucket and keeps every other item and the map;
      it keeps the whole invariant exactly when it strands nothing. */
  lemma MovedKeeps<V(!new)>(s: Table<V>, p: nat)
    requires Valid(s) && p < |s.slots| && s.slots[p].Entry?
    ensures var s' := Moved(s, p);
            && SoundTable(s')
            && Contents(s'.slots) == Contents(s.slots)
            && NewPosition(s, p) < |s'.slots| && s'.slots[NewPosition(s, p)] == Rehomed(s, p)
            && (Valid(s') <==> !Strands(s, p))
  {
    hide Home, Inserted, Removed;
    var s1, e, pos := Without(s, p), Rehomed(s, p), NewPosition(s, p);
    WithoutItems(s, p);
    RehomedFits(s, p);
    PutKeeps(s1, e, pos);
    var s' := Moved(s, p);
    InsertedFresh(s1.slots, e, pos, s.bits, s.remapEnd);
    InsertedAfter(s1.slots, e, pos);
    var m := Contents(s.slots);
    forall k, v ensures Has(m, k, v) <==> HasItem(Items(s'.slots), k, v) {
      ContentsIsItems(s.slots, k, v);
      ContentsAt(s.slots, p);
      ItemsButKey(s.slots, p, k, v);
      assert Item(e.key, e.value, Home(e.key.hash, s.bits)) in Items(s'.slots);
    }
    SameContents(s'.slots, m);
  }

  /** The sweep that remaps the entry at `remapEnd` itself never strands anything. */
  lemma SweepNeverStrands<V(!new)>(s: Table<V>)
    requires Valid(s) && 0 <= s.remapEnd && s.slots[s.remapEnd].Entry? && !FreshAt(s.slots, s.bits, s.remapEnd)
    ensures !Strands(s, s.remapEnd)
  {
    var p: nat := s.remapEnd;
    var t, t1 := s.slots, Removed(s.slots, p);
    var home := Home(t[p].key.hash, s.bits);
    assert Bucket(t, p) < home by {
      assert ItemAt(t, p) in Items(t);
      assert KnownItem(ItemAt(t, p), s.bits, s.remaps);
      var z: nat :| s.bits - s.remaps <= z <= s.bits && Bucket(t, p) == Home(t[p].key.hash, z);
      HomeGrows(t[p].key.hash, s.bits, s.bits - z);
    }
    var pos := NewPosition(s, p);
    if pos < p {
      RunBelow(t, p, pos);
    }
    if pos == p && t1[p].Entry? {
      RemovedFresh(t, p, s.bits, p - 1);
      assert FreshAt(t1, s.bits, p);
    }
  }

  /** With at most one unfinished size-up no lookup can strand an entry: whatever the chain pushes
      lies in the upper half of the buckets, which only the current size uses. */
  lemma {:induction false} UpperHalfNotCarried<V(!new)>(t: seq<Slot<V>>, pos: nat, bits: nat, remapEnd: int, b: nat)
    requires bits > 0 && Clustered(t) && Known(t, bits, 1) && b >= Pow2(bits - 1) && pos <= |t|
    requires pos < |t| && t[pos].Entry? ==> Bucket(t, pos) > b
    ensures !Carries(t, pos, bits, remapEnd)
    decreases |t| - pos
  {
    if pos < |t| && t[pos].Entry? {
      assert ItemAt(t, pos) in Items(t);
      assert KnownItem(ItemAt(t, pos), bits, 1);
      var z: nat :| bits - 1 <= z <= bits && Bucket(t, pos) == Home(t[pos].key.hash, z);
      assert z == bits;
      var next := EndOf(t, pos, pos + 1);
      if next < |t| && t[next].Entry? {
        assert OkAt(t, next) && OkAt(t, next - 1);
        UpperHalfNotCarried(t, next, bits, remapEnd, b);
      }
    }
  }

  lemma MovesToUpperHalf<V(!new)>(s: Table<V>, p: nat)
    requires SoundTable(s) && s.remaps <= 1 && p < |s.slots| && s.slots[p].Entry? && !FreshAt(s.slots, s.bits, p)
    ensures s.remaps == 1 && Home(s.slots[p].key.hash, s.bits) >= Pow2(s.bits - 1)
  {
    var key := s.slots[p].key;
    assert ItemAt(s.slots, p) in Items(s.slots);
    assert KnownItem(ItemAt(s.slots, p), s.bits, s.remaps);
    var z: nat :| s.bits - s.remaps <= z <= s.bits && Bucket(s.slots, p) == Home(key.hash, z);
    HomeDoubles(key.hash, s.bits - 1);
  }

  lemma OneSizeUpNeverStrands<V(!new)>(s: Table<V>, p: nat)
    requires Valid(s) && s.remaps <= 1 && p < |s.slots| && s.slots[p].Entry? && !FreshAt(s.slots, s.bits, p)
    ensures !Strands(s, p)
  {
    MovesToUpperHalf(s, p);
    WithoutItems(s, p);
    UpperHalfNotCarried(Without(s, p).slots, NewPosition(s, p), s.bits, s.remapEnd, Home(s.slots[p].key.hash, s.bits));
  }

  /** What stranding means: some key of the map is no longer found. */
  lemma StrandingLosesKey<V(!new)>(s: Table<V>)
    requires SoundTable(s)
    ensures Valid(s) <==> forall k :: k in Contents(s.slots) ==> Find(s, k) >= 0
  {
    if Valid(s) {
      forall k | k in Contents(s.slots) ensures Find(s, k) >= 0 {
        FindIsContents(s, k);
      }
    } else {
      var i: nat :| s.remapEnd < i < |s.slots| && !FreshAt(s.slots, s.bits, i);
      SearchExact(s.slots, s.bits, s.remaps, s.remapEnd, i);
      assert s.slots[i].key in Contents(s.slots);
    }
  }

  // ---------------------------------------------------------------- lookup and overwrite

  /** An entry found in an earlier table size is moved at once, unless an iteration is under way. */
  predicate Eager<V>(s: Table<V>, iters: nat, p: int)
    requires p < |s.slots|
  {
    p >= 0 && iters == 0 && !FreshAt(s.slots, s.bits, p)
  }

  lemma FindLands<V>(s: Table<V>, key: Key)
    requires Shaped(s)
    ensures var p := Find(s, key); p >= 0 ==> s.slots[p].Entry? && s.slots[p].key == key
  {
    SearchOldSound(s.slots, key, s.bits, s.remaps, s.remapEnd, 1);
  }

  /** LookupIndex: the table afterwards. */
  function Looked<V>(s: Table<V>, iters: nat, key: Key): (s': Table<V>)
    requires Shaped(s)
    ensures Shaped(s') && |s'.slots| >= |s.slots| && s'.bits >= s.bits && s'.remapEnd >= s.remapEnd
  {
    var p := Find(s, key);
    FindLands(s, key);
    if Eager(s, iters, p) then Moved(s, p) else s
  }

  /** LookupIndex: the position it returns. */
  function Position<V>(s: Table<V>, iters: nat, key: Key): (p: int)
    requires Shaped(s)
    ensures p >= 0 ==> p < |Looked(s, iters, key).slots| && Looked(s, iters, key).slots[p].Entry?
    ensures p < 0 ==> Looked(s, iters, key) == s
  {
    var p := Find(s, key);
    FindLands(s, key);
    if Eager(s, iters, p) then PutLands(s, p); NewPosition(s, p) else p
  }

  lemma PutLands<V>(s: Table<V>, p: nat)
    requires Shaped(s) && p < |s.slots| && s.slots[p].Entry?
    ensures NewPosition(s, p) < |Moved(s, p).slots| && Moved(s, p).slots[NewPosition(s, p)] == Rehomed(s, p)
  {
    InsertedAt(Without(s, p).slots, Rehomed(s, p), NewPosition(s, p));
  }

  /** Looking up `key` would leave some key of the map unreachable. */
  predicate Loses<V>(s: Table<V>, iters: nat, key: Key)
    requires Shaped(s)
  {
    var p := Find(s, key);
    FindLands(s, key);
    Eager(s, iters, p) && Strands(s, p)
  }

  /** Lookup finds exactly the mapped value and never changes the map; afterwards every key can
      still be found exactly when `Loses` was false before the call. */
  lemma LookedKeeps<V(!new)>(s: Table<V>, iters: nat, key: Key)
    requires Valid(s)
    ensures var s', p := Looked(s, iters, key), Position(s, iters, key);
            && SoundTable(s')
            && Contents(s'.slots) == Contents(s.slots)
            && (if p >= 0 then s'.slots[p].key == key && Has(Contents(s.slots), key, s'.slots[p].value)
                else key !in Contents(s.slots) && Absent(s.slots, key))
            && (Valid(s') <==> !Loses(s, iters, key))
  {
    var p := Find(s, key);
    FindIsContents(s, key);
    if Eager(s, iters, p) {
      MovedKeeps(s, p);
    }
  }

  lemma LosesExact<V(!new)>(s: Table<V>, iters: nat, key: Key)
    requires Valid(s)
    ensures Loses(s, iters, key) <==>
            exists k :: k in Contents(s.slots) && Find(Looked(s, iters, key), k) < 0
  {
    LookedKeeps(s, iters, key);
    StrandingLosesKey(Looked(s, iters, key));
  }

  /** With at most one unfinished size-up, or during an iteration, a lookup loses nothing. */
  lemma SafeLookup<V(!new)>(s: Table<V>, iters: nat, key: Key)
    requires Valid(s) && (s.remaps <= 1 || iters > 0)
    ensures !Loses(s, iters, key)
  {
    var p := Find(s, key);
    FindLands(s, key);
    if Eager(s, iters, p) {
      OneSizeUpNeverStrands(s, p);
    }
  }

  function Overwritten<V>(s: Table<V>, p: nat, v: V): (s': Table<V>)
    requires Shaped(s) && p < |s.slots| && s.slots[p].Entry?
    ensures Shaped(s') && s'.slots != []
  {
    s.(slots := s.slots[p := s.slots[p].(value := v)])
  }

  lemma OverwrittenSound<V(!new)>(s: Table<V>, p: nat, v: V)
    requires Valid(s) && p < |s.slots| && s.slots[p].Entry?
    ensures Valid(Overwritten(s, p, v))
    ensures Items(Overwritten(s, p, v).slots) ==
            ItemsBut(s.slots, p) + iset{Item(s.slots[p].key, v, Bucket(s.slots, p))}
  {
    var t, u := s.slots, Overwritten(s, p, v).slots;
    UpdateItems(t, p, t[p].(value := v));
    forall i: nat | i < |u| ensures OkAt(u, i) {
      assert OkAt(t, i);
    }
    forall it | it in Items(u) ensures KnownItem(it, s.bits, s.remaps) {
      assert ItemAt(t, p) in Items(t) && KnownItem(ItemAt(t, p), s.bits, s.remaps);
      assert ItemsBut(t, p) <= Items(t);
    }
    forall i: nat | s.remapEnd < i < |u| ensures FreshAt(u, s.bits, i) {
      assert FreshAt(t, s.bits, i);
    }
  }

  lemma OverwrittenKeeps<V(!new)>(s: Table<V>, p: nat, v: V)
    requires Valid(s) && p < |s.slots| && s.slots[p].Entry?
    ensures Valid(Overwritten(s, p, v)) && s.slots[p].key in Contents(s.slots)
    ensures Contents(Overwritten(s, p, v).slots) == Contents(s.slots)[s.slots[p].key := v]
  {
    OverwrittenSound(s, p, v);
    var t, u := s.slots, Overwritten(s, p, v).slots;
    var m := Contents(t)[t[p].key := v];
    ContentsAt(t, p);
    forall k, w ensures Has(m, k, w) <==> HasItem(Items(u), k, w) {
      ContentsIsItems(t, k, w);
      ItemsButKey(t, p, k, w);
      assert Item(t[p].key, v, Bucket(t, p)) in Items(u);
    }
    SameContents(u, m);
  }
}
