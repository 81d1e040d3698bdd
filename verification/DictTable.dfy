/** The clustered hash table behind Dictionary: slots, buckets, probing and the two relocation
    chains, as functions on the sequence of slots. The class in Dict.dfy updates its array in
    place and is proved against these functions; what the table promises is proved here. */
module DictTable {

  // ---------------------------------------------------------------- hashing

  /** Only the low 32 bits of a hash are stored and compared. */
  type Hash32 = h: nat | h < 0x1_0000_0000

  datatype Key = Key(bytes: seq<bv8>, hash: Hash32)

  function Pow2(n: nat): (p: nat)
    ensures p >= 1
  {
    if n == 0 then 1 else 2 * Pow2(n - 1)
  }

  /** Multiplication by 2^64 / phi in 64-bit arithmetic. */
  function FibHash(h: Hash32): nat {
    (h * 11400714819323198485) % 0x1_0000_0000_0000_0000
  }

  /** The low `bits` bits of `x`. */
  function LowBits(x: nat, bits: nat): (b: nat)
    ensures b < Pow2(bits)
  {
    if bits == 0 then 0 else x % 2 + 2 * LowBits(x / 2, bits - 1)
  }

  /** The bucket of a hash in a table of 2^bits buckets: the low bits of its FibHash. */
  function Home(h: Hash32, bits: nat): (b: nat)
    ensures b < Pow2(bits)
  {
    LowBits(FibHash(h), bits)
  }

  lemma {:induction false} LowBitsDouble(x: nat, bits: nat)
    ensures LowBits(x, bits + 1) == LowBits(x, bits) || LowBits(x, bits + 1) == LowBits(x, bits) + Pow2(bits)
  {
    if bits > 0 {
      LowBitsDouble(x / 2, bits - 1);
    }
  }

  /** Doubling the table either leaves a bucket alone or moves it up by the old bucket count. */
  lemma HomeDoubles(h: Hash32, bits: nat)
    ensures Home(h, bits + 1) == Home(h, bits) || Home(h, bits + 1) == Home(h, bits) + Pow2(bits)
  {
    LowBitsDouble(FibHash(h), bits);
  }

  lemma {:induction false} HomeGrows(h: Hash32, bits: nat, r: nat)
    requires r <= bits
    ensures Home(h, bits - r) <= Home(h, bits)
    decreases r
  {
    if r > 0 {
      HomeGrows(h, bits - 1, r - 1);
      HomeDoubles(h, bits - 1);
    }
  }

  /** Buckets plus overflow area. */
  function Capacity(bits: nat): nat { Pow2(bits) + bits }

  // ---------------------------------------------------------------- slots

  datatype Slot<V> = Empty | Entry(key: Key, value: V, distance: nat)

  /** An entry without its position: what relocation must not change. */
  datatype Item<V> = Item(key: Key, value: V, bucket: int)

  function Bucket<V>(t: seq<Slot<V>>, i: nat): int
    requires i < |t| && t[i].Entry?
  {
    i - t[i].distance
  }

  function ItemAt<V>(t: seq<Slot<V>>, i: nat): Item<V>
    requires i < |t| && t[i].Entry?
  {
    Item(t[i].key, t[i].value, Bucket(t, i))
  }

  ghost predicate OkAt<V>(t: seq<Slot<V>>, i: nat)
    requires i < |t|
  {
    t[i].Entry? ==>
      && t[i].distance <= i
      && (t[i].distance > 0 ==> t[i - 1].Entry? && Bucket(t, i - 1) <= Bucket(t, i))
  }

  /** Every slot from an entry's bucket to its position is occupied, and buckets do not decrease
      along an occupied run. */
  ghost predicate Clustered<V>(t: seq<Slot<V>>) {
    forall i: nat :: i < |t| ==> OkAt(t, i)
  }

  lemma {:induction false} RunBelow<V>(t: seq<Slot<V>>, p: nat, i: nat)
    requires Clustered(t) && p < |t| && t[p].Entry? && Bucket(t, p) <= i <= p
    ensures t[i].Entry? && Bucket(t, i) <= Bucket(t, p)
    decreases p - i
  {
    assert OkAt(t, p);
    if i < p {
      RunBelow(t, p - 1, i);
    }
  }

  /** No two slots other than `hole` hold the same key. */
  ghost predicate DistinctBut<V>(t: seq<Slot<V>>, hole: int) {
    forall i: nat, j: nat ::
      i < j < |t| && i != hole && j != hole && t[i].Entry? && t[j].Entry? ==> t[i].key != t[j].key
  }

  ghost predicate Distinct<V>(t: seq<Slot<V>>) { DistinctBut(t, -1) }

  ghost predicate Absent<V>(t: seq<Slot<V>>, k: Key) {
    forall i: nat :: i < |t| && t[i].Entry? ==> t[i].key != k
  }

  ghost function ItemsBut<V(!new)>(t: seq<Slot<V>>, hole: int): iset<Item<V>> {
    iset i: nat | i < |t| && i != hole && t[i].Entry? :: ItemAt(t, i)
  }

  ghost function Items<V(!new)>(t: seq<Slot<V>>): iset<Item<V>> { ItemsBut(t, -1) }

  // ---------------------------------------------------------------- probing

  /** Scan of one cluster: from `i`, while slots are occupied by buckets up to `begin`. */
  function Probe<V>(t: seq<Slot<V>>, key: Key, begin: nat, end: nat, i: nat): (p: int)
    requires end <= |t|
    ensures p == -1 || (i <= p < end && t[p].Entry? && t[p].key == key && Bucket(t, p) == begin)
    decreases |t| - i
  {
    if i < end && t[i].Entry? && Bucket(t, i) <= begin then
      if Bucket(t, i) == begin && t[i].key == key then i else Probe(t, key, begin, end, i + 1)
    else -1
  }

  /** The end of the cluster of `bucket`, from `i` on. */
  function ClusterEnd<V>(t: seq<Slot<V>>, bucket: int, i: nat): (e: nat)
    requires i <= |t|
    ensures i <= e <= |t|
    ensures e < |t| && t[e].Entry? ==> Bucket(t, e) > bucket
    ensures forall j: nat :: i <= j < e ==> t[j].Entry? && Bucket(t, j) <= bucket
    decreases |t| - i
  {
    if i < |t| && t[i].Entry? && Bucket(t, i) <= bucket then ClusterEnd(t, bucket, i + 1) else i
  }

  /** One past the last entry that shares the bucket of slot `p`. */
  function EndOf<V>(t: seq<Slot<V>>, p: nat, i: nat): (e: nat)
    requires p < i <= |t| && t[p].Entry?
    ensures i <= e <= |t|
    ensures e < |t| && t[e].Entry? ==> Bucket(t, e) != Bucket(t, p)
    ensures forall j: nat :: i <= j < e ==> t[j].Entry? && Bucket(t, j) == Bucket(t, p)
    decreases |t| - i
  {
    if i < |t| && t[i].Entry? && Bucket(t, i) == Bucket(t, p) then EndOf(t, p, i + 1) else i
  }

  /** The probes of the previous table sizes, newest first. */
  function SearchOld<V>(t: seq<Slot<V>>, key: Key, bits: nat, remaps: nat, remapEnd: int, r: nat): (p: int)
    requires remaps <= bits && remapEnd < |t|
    ensures -1 <= p < |t|
    decreases remaps + 1 - r
  {
    if r > remaps then -1
    else
      var b := Home(key.hash, bits - r);
      var p := if b <= remapEnd then Probe(t, key, b, remapEnd + 1, b) else -1;
      if p >= 0 then p else SearchOld(t, key, bits, remaps, remapEnd, r + 1)
  }

  function Search<V>(t: seq<Slot<V>>, key: Key, bits: nat, remaps: nat, remapEnd: int): (p: int)
    requires remaps <= bits && remapEnd < |t|
    ensures -1 <= p < |t|
  {
    var b := Home(key.hash, bits);
    var p := Probe(t, key, b, |t|, b);
    if p >= 0 then p else SearchOld(t, key, bits, remaps, remapEnd, 1)
  }

  /** The linear scan that debug builds compare against. */
  function Scan<V>(t: seq<Slot<V>>, key: Key, i: nat): (p: int)
    requires i <= |t|
    ensures p == -1 ==> forall j: nat :: i <= j < |t| && t[j].Entry? ==> t[j].key != key
    ensures p != -1 ==> i <= p < |t| && t[p].Entry? && t[p].key == key
    decreases |t| - i
  {
    if i == |t| then -1
    else if t[i].Entry? && t[i].key == key then i
    else Scan(t, key, i + 1)
  }

  lemma {:induction false} ProbeFinds<V>(t: seq<Slot<V>>, key: Key, begin: nat, end: nat, i: nat, p: nat)
    requires Clustered(t) && Distinct(t) && begin <= i <= p < end <= |t|
    requires t[p].Entry? && t[p].key == key && Bucket(t, p) == begin
    ensures Probe(t, key, begin, end, i) == p
    decreases p - i
  {
    RunBelow(t, p, i);
    if i < p {
      ProbeFinds(t, key, begin, end, i + 1, p);
    }
  }

  // ---------------------------------------------------------------- table invariant

  /** `b` is the bucket of `h` in the current table size or in one of the `remaps` sizes before it. */
  ghost predicate KnownHome(h: Hash32, b: int, bits: nat, remaps: nat) {
    exists s: nat :: bits - remaps <= s <= bits && b == Home(h, s)
  }

  predicate FreshAt<V>(t: seq<Slot<V>>, bits: nat, i: nat)
    requires i < |t|
  {
    t[i].Entry? ==> Bucket(t, i) == Home(t[i].key.hash, bits)
  }

  /** Above `remapEnd` every entry sits in its bucket of the current size. */
  ghost predicate FreshAbove<V>(t: seq<Slot<V>>, bits: nat, remapEnd: int) {
    forall i: nat :: remapEnd < i < |t| ==> FreshAt(t, bits, i)
  }

  ghost predicate KnownItem<V>(it: Item<V>, bits: nat, remaps: nat) {
    KnownHome(it.key.hash, it.bucket, bits, remaps)
  }

  ghost predicate Known<V(!new)>(t: seq<Slot<V>>, bits: nat, remaps: nat) {
    forall it :: it in Items(t) ==> KnownItem(it, bits, remaps)
  }

  /** What holds of the slots between any two operations, whether or not every key can be found. */
  ghost predicate Sound<V(!new)>(t: seq<Slot<V>>, bits: nat, remaps: nat, remapEnd: int) {
    && (|t| == 0 || |t| == Capacity(bits))
    && remaps <= bits
    && -1 <= remapEnd < |t|
    && (remaps == 0 <==> remapEnd == -1)
    && Clustered(t)
    && Distinct(t)
    && Known(t, bits, remaps)
  }

  /** The full invariant. */
  ghost predicate Inv<V(!new)>(t: seq<Slot<V>>, bits: nat, remaps: nat, remapEnd: int) {
    Sound(t, bits, remaps, remapEnd) && FreshAbove(t, bits, remapEnd)
  }

  lemma {:induction false} SearchOldSound<V>(t: seq<Slot<V>>, key: Key, bits: nat, remaps: nat, remapEnd: int, r: nat)
    requires remaps <= bits && remapEnd < |t|
    ensures var p := SearchOld(t, key, bits, remaps, remapEnd, r);
            p >= 0 ==> p <= remapEnd && t[p].Entry? && t[p].key == key
    decreases remaps + 1 - r
  {
    if r <= remaps {
      SearchOldSound(t, key, bits, remaps, remapEnd, r + 1);
    }
  }

  lemma {:induction false} SearchOldFinds<V>(t: seq<Slot<V>>, key: Key, bits: nat, remaps: nat, remapEnd: int, r: nat,
      r0: nat, p: nat)
    requires remaps <= bits && remapEnd < |t| && Clustered(t) && Distinct(t)
    requires 0 <= p <= remapEnd && t[p].Entry? && t[p].key == key
    requires r <= r0 <= remaps && Bucket(t, p) == Home(key.hash, bits - r0)
    ensures SearchOld(t, key, bits, remaps, remapEnd, r) == p
    decreases r0 - r
  {
    var b := Home(key.hash, bits - r);
    if r == r0 {
      ProbeFinds(t, key, b, remapEnd + 1, b, p);
    } else {
      SearchOldFinds(t, key, bits, remaps, remapEnd, r + 1, r0, p);
    }
  }

  /** An entry is found by the bucket-limited search exactly when it sits in its current bucket
      or lies at or below `remapEnd`. */
  lemma SearchExact<V(!new)>(t: seq<Slot<V>>, bits: nat, remaps: nat, remapEnd: int, p: nat)
    requires Sound(t, bits, remaps, remapEnd) && p < |t| && t[p].Entry?
    ensures Search(t, t[p].key, bits, remaps, remapEnd) ==
            if FreshAt(t, bits, p) || p <= remapEnd then p else -1
  {
    var key := t[p].key;
    var b := Home(key.hash, bits);
    if FreshAt(t, bits, p) {
      ProbeFinds(t, key, b, |t|, b, p);
    } else {
      SearchOldSound(t, key, bits, remaps, remapEnd, 1);
      if p <= remapEnd {
        assert ItemAt(t, p) in Items(t);
        assert KnownItem(ItemAt(t, p), bits, remaps);
        var s: nat :| bits - remaps <= s <= bits && Bucket(t, p) == Home(key.hash, s);
        SearchOldFinds(t, key, bits, remaps, remapEnd, 1, bits - s, p);
      }
    }
  }

  /** Under the invariant the bucket-limited search over current and previous sizes agrees with
      the linear scan on every key, present or not. */
  lemma SearchIsScan<V(!new)>(t: seq<Slot<V>>, key: Key, bits: nat, remaps: nat, remapEnd: int)
    requires Inv(t, bits, remaps, remapEnd)
    ensures Search(t, key, bits, remaps, remapEnd) == Scan(t, key, 0)
  {
    var s := Scan(t, key, 0);
    if s >= 0 {
      SearchExact(t, bits, remaps, remapEnd, s);
    } else {
      SearchOldSound(t, key, bits, remaps, remapEnd, 1);
    }
  }

  // ---------------------------------------------------------------- insertion chain

  /** `e` may be put at `pos`: its cluster ends there, and what is there belongs to a later bucket. */
  ghost predicate Fits<V>(t: seq<Slot<V>>, e: Slot<V>, pos: nat) {
    && pos <= |t|
    && e.Entry? && e.distance <= pos
    && (e.distance > 0 ==> t[pos - 1].Entry? && Bucket(t, pos - 1) <= pos - e.distance)
    && (pos < |t| && t[pos].Entry? ==> Bucket(t, pos) > pos - e.distance)
  }

  /** Put `e` at `pos`; the head of the cluster that was there goes to the end of its own cluster,
      and so on until a free slot. A chain that reaches the end of the table adds a slot. */
  function Inserted<V>(t: seq<Slot<V>>, e: Slot<V>, pos: nat): (t': seq<Slot<V>>)
    requires pos <= |t|
    ensures |t| <= |t'| <= |t| + 1
    ensures forall i: nat :: i < pos ==> t'[i] == t[i]
    decreases |t| - pos
  {
    if pos == |t| then t + [e]
    else if t[pos].Empty? then t[pos := e]
    else
      var next := EndOf(t, pos, pos + 1);
      Inserted(t[pos := e], t[pos].(distance := t[pos].distance + (next - pos)), next)
  }

  /** The slot at which the chain from `pos` ends. */
  function Last<V>(t: seq<Slot<V>>, pos: nat): (l: nat)
    requires pos <= |t|
    ensures pos <= l <= |t|
    decreases |t| - pos
  {
    if pos == |t| || t[pos].Empty? then pos else Last(t, EndOf(t, pos, pos + 1))
  }

  lemma {:induction false} EndOfAgrees<V>(t: seq<Slot<V>>, u: seq<Slot<V>>, p: nat, i: nat)
    requires |t| == |u| && p < i <= |t| && t[p].Entry? && t[p] == u[p] && t[i..] == u[i..]
    ensures EndOf(t, p, i) == EndOf(u, p, i)
    decreases |t| - i
  {
    if i < |t| {
      assert t[i..][0] == t[i] && u[i..][0] == u[i];
      assert t[i..][1..] == t[i + 1..] && u[i..][1..] == u[i + 1..];
      EndOfAgrees(t, u, p, i + 1);
    }
  }

  lemma {:induction false} LastAgrees<V>(t: seq<Slot<V>>, u: seq<Slot<V>>, pos: nat)
    requires |t| == |u| && pos <= |t| && t[pos..] == u[pos..]
    ensures Last(t, pos) == Last(u, pos)
    decreases |t| - pos
  {
    if pos < |t| {
      assert t[pos..][0] == t[pos] && u[pos..][0] == u[pos];
      if t[pos].Entry? {
        assert t[pos..][1..] == t[pos + 1..] && u[pos..][1..] == u[pos + 1..];
        EndOfAgrees(t, u, pos, pos + 1);
        var next := EndOf(t, pos, pos + 1);
        assert t[pos..][next - pos..] == t[next..] && u[pos..][next - pos..] == u[next..];
        LastAgrees(t, u, next);
      }
    }
  }

  /** One step of the chain leaves a clustered table and a new entry that fits. */
  lemma InsertStep<V>(t: seq<Slot<V>>, e: Slot<V>, pos: nat)
    requires Clustered(t) && Fits(t, e, pos) && pos < |t|
    ensures Clustered(t[pos := e])
    ensures t[pos].Entry? ==>
              var next := EndOf(t, pos, pos + 1);
              Fits(t[pos := e], t[pos].(distance := t[pos].distance + (next - pos)), next)
  {
    var u := t[pos := e];
    forall i: nat | i < |u| ensures OkAt(u, i) {
      assert OkAt(t, i);
      if i == pos + 1 && t[i].Entry? && t[i].distance > 0 {
        assert OkAt(t, pos);
      }
    }
    if t[pos].Entry? {
      assert OkAt(t, pos);
      var next := EndOf(t, pos, pos + 1);
      if next < |t| && t[next].Entry? {
        assert OkAt(t, next);
        if t[next].distance == 0 {
          assert OkAt(t, next - 1);
        }
      }
    }
  }

  /** Insertion keeps the table clustered and adds exactly the new item: nothing is lost, changed
      or moved to another bucket. */
  lemma {:induction false} InsertedKeeps<V(!new)>(t: seq<Slot<V>>, e: Slot<V>, pos: nat)
    requires Clustered(t) && Fits(t, e, pos) && Distinct(t) && Absent(t, e.key)
    ensures var t' := Inserted(t, e, pos);
            && Clustered(t')
            && Distinct(t')
            && Items(t') == Items(t) + iset{Item(e.key, e.value, pos - e.distance)}
    decreases |t| - pos
  {
    if pos == |t| {
      AppendKeeps(t, e);
      AppendItems(t, e);
    } else {
      InsertStep(t, e, pos);
      InsertStepItems(t, e, pos);
      if t[pos].Entry? {
        var next := EndOf(t, pos, pos + 1);
        var hand := t[pos].(distance := t[pos].distance + (next - pos));
        assert Item(hand.key, hand.value, next - hand.distance) == ItemAt(t, pos);
        InsertedKeeps(t[pos := e], hand, next);
      }
    }
  }

  lemma InsertStepItems<V(!new)>(t: seq<Slot<V>>, e: Slot<V>, pos: nat)
    requires Distinct(t) && e.Entry? && Absent(t, e.key) && pos < |t|
    ensures var u := t[pos := e];
            var it := Item(e.key, e.value, pos - e.distance);
            && Distinct(u)
            && if t[pos].Entry? then Absent(u, t[pos].key) && Items(u) + iset{ItemAt(t, pos)} == Items(t) + iset{it}
               else Items(u) == Items(t) + iset{it}
  {
    UpdateItems(t, pos, e);
    UpdateItems(t, pos, t[pos]);
    assert t[pos := t[pos]] == t;
  }

  lemma AppendKeeps<V>(t: seq<Slot<V>>, e: Slot<V>)
    requires Clustered(t) && Fits(t, e, |t|) && Distinct(t) && Absent(t, e.key)
    ensures Clustered(t + [e]) && Distinct(t + [e])
  {
    var t' := t + [e];
    forall i: nat | i < |t'| ensures OkAt(t', i) {
      if i < |t| {
        assert OkAt(t, i);
      }
    }
  }

  lemma AppendItems<V(!new)>(t: seq<Slot<V>>, e: Slot<V>)
    requires e.Entry?
    ensures Items(t + [e]) == Items(t) + iset{Item(e.key, e.value, |t| - e.distance)}
  {
    var u := t + [e];
    assert ItemAt(u, |t|) == Item(e.key, e.value, |t| - e.distance);
    forall it | it in Items(t) ensures it in Items(u) {
      var i: nat :| i < |t| && t[i].Entry? && ItemAt(t, i) == it;
      assert ItemAt(u, i) == it;
    }
    forall it | it in Items(u) ensures it in Items(t) + iset{ItemAt(u, |t|)} {
      var i: nat :| i < |u| && u[i].Entry? && ItemAt(u, i) == it;
      if i < |t| {
        assert ItemAt(t, i) == it;
      }
    }
  }

  lemma UpdateItems<V(!new)>(t: seq<Slot<V>>, pos: nat, e: Slot<V>)
    requires pos < |t|
    ensures ItemsBut(t[pos := e], pos) == ItemsBut(t, pos)
    ensures Items(t[pos := e]) ==
            ItemsBut(t, pos) + if e.Entry? then iset{Item(e.key, e.value, pos - e.distance)} else iset{}
  {
    var u := t[pos := e];
    forall it ensures it in ItemsBut(u, pos) <==> it in ItemsBut(t, pos) {
      if it in ItemsBut(u, pos) {
        var i: nat :| i < |u| && i != pos && u[i].Entry? && ItemAt(u, i) == it;
        assert ItemAt(t, i) == it;
      }
      if it in ItemsBut(t, pos) {
        var i: nat :| i < |t| && i != pos && t[i].Entry? && ItemAt(t, i) == it;
        assert ItemAt(u, i) == it;
      }
    }
    if e.Entry? {
      assert ItemAt(u, pos) == Item(e.key, e.value, pos - e.distance);
    }
    forall it ensures it in Items(u) <==>
                      it in ItemsBut(u, pos) + if e.Entry? then iset{Item(e.key, e.value, pos - e.distance)}
                          else iset{} {
      if it in Items(u) {
        var i: nat :| i < |u| && u[i].Entry? && ItemAt(u, i) == it;
      }
      if it in ItemsBut(u, pos) {
        var i: nat :| i < |u| && i != pos && u[i].Entry? && ItemAt(u, i) == it;
      }
    }
  }

  /** One turn of the insertion loop. */
  lemma InsertedTurn<V>(t: seq<Slot<V>>, e: Slot<V>, pos: nat, tail: nat)
    requires pos < |t| && t[pos].Entry? && tail + 1 == EndOf(t, pos, pos + 1)
    ensures var hand := t[pos].(distance := t[pos].distance + (tail + 1 - pos));
            Inserted(t, e, pos) == Inserted(t[pos := e], hand, tail + 1)
    ensures Last(t, pos) == Last(t[pos := e], tail + 1)
  {
    LastAgrees(t, t[pos := e], tail + 1);
  }

  /** The insertion loop ends at a free slot or at the end of the table. */
  lemma InsertedEnd<V>(t: seq<Slot<V>>, e: Slot<V>, pos: nat)
    requires pos <= |t| && (pos < |t| ==> t[pos].Empty?)
    ensures Inserted(t, e, pos) == (if pos == |t| then t + [e] else t[pos := e]) && Last(t, pos) == pos
  {
  }

  /** The chain touches no slot after the one it ends at, and grows the table only from its end. */
  lemma {:induction false} InsertedAfter<V>(t: seq<Slot<V>>, e: Slot<V>, pos: nat)
    requires pos <= |t|
    ensures var t' := Inserted(t, e, pos);
            && |t'| == |t| + (if Last(t, pos) == |t| then 1 else 0)
            && forall i: nat :: Last(t, pos) < i < |t| ==> t'[i] == t[i]
    decreases |t| - pos
  {
    if pos < |t| && t[pos].Entry? {
      var next := EndOf(t, pos, pos + 1);
      LastAgrees(t, t[pos := e], next);
      InsertedAfter(t[pos := e], t[pos].(distance := t[pos].distance + (next - pos)), next);
    }
  }

  /** The chain from `pos` carries an entry that is not in its current bucket across `remapEnd`:
      the first entry of the cluster that reaches past `remapEnd` is out of date. */
  predicate Carries<V>(t: seq<Slot<V>>, pos: nat, bits: nat, remapEnd: int)
    requires pos <= |t|
    decreases |t| - pos
  {
    && pos <= remapEnd && pos < |t| && t[pos].Entry?
    && var next := EndOf(t, pos, pos + 1);
       if next > remapEnd then !FreshAt(t, bits, pos) else Carries(t, next, bits, remapEnd)
  }

  lemma {:induction false} CarriesAgrees<V>(t: seq<Slot<V>>, u: seq<Slot<V>>, pos: nat, bits: nat, remapEnd: int)
    requires |t| == |u| && pos <= |t| && t[pos..] == u[pos..]
    ensures Carries(t, pos, bits, remapEnd) == Carries(u, pos, bits, remapEnd)
    decreases |t| - pos
  {
    if pos < |t| {
      assert t[pos..][0] == t[pos] && u[pos..][0] == u[pos];
      if t[pos].Entry? {
        assert t[pos..][1..] == t[pos + 1..] && u[pos..][1..] == u[pos + 1..];
        EndOfAgrees(t, u, pos, pos + 1);
        var next := EndOf(t, pos, pos + 1);
        assert t[pos..][next - pos..] == t[next..] && u[pos..][next - pos..] == u[next..];
        CarriesAgrees(t, u, next, bits, remapEnd);
      }
    }
  }

  lemma {:induction false} InsertedAt<V>(t: seq<Slot<V>>, e: Slot<V>, pos: nat)
    requires pos <= |t|
    ensures pos < |Inserted(t, e, pos)| && Inserted(t, e, pos)[pos] == e
  {
  }

  /** Insertion leaves everything above `remapEnd` in its current bucket exactly when the chain
      carries no out-of-date entry across. */
  lemma {:induction false} InsertedFresh<V>(t: seq<Slot<V>>, e: Slot<V>, pos: nat, bits: nat, remapEnd: int)
    requires pos <= |t| && e.Entry? && FreshAbove(t, bits, remapEnd)
    requires pos > remapEnd ==> pos - e.distance == Home(e.key.hash, bits)
    ensures FreshAbove(Inserted(t, e, pos), bits, remapEnd) <==> !Carries(t, pos, bits, remapEnd)
    decreases |t| - pos
  {
    var t' := Inserted(t, e, pos);
    var u := if pos == |t| then t + [e] else t[pos := e];
    forall i: nat | remapEnd < i < |u| ensures FreshAt(u, bits, i) {
      if i != pos {
        assert FreshAt(t, bits, i);
      }
    }
    if pos < |t| && t[pos].Entry? {
      var next := EndOf(t, pos, pos + 1);
      var hand := t[pos].(distance := t[pos].distance + (next - pos));
      CarriesAgrees(t, u, next, bits, remapEnd);
      if pos > remapEnd {
        assert FreshAt(t, bits, pos);
        InsertedFresh(u, hand, next, bits, remapEnd);
      } else if next <= remapEnd || FreshAt(t, bits, pos) {
        InsertedFresh(u, hand, next, bits, remapEnd);
      } else {
        InsertedAt(u, hand, next);
        assert !FreshAt(t', bits, next);
      }
    }
  }

  // ---------------------------------------------------------------- removal chain

  /** Fill slot `pos` with the tail of the cluster that follows, and so on, until the next slot is
      free or already in its own bucket. */
  function Removed<V>(t: seq<Slot<V>>, pos: nat): (t': seq<Slot<V>>)
    requires pos < |t| && t[pos].Entry?
    ensures |t'| == |t|
    ensures forall i: nat :: i < pos ==> t'[i] == t[i]
    decreases |t| - pos
  {
    if pos + 1 == |t| || t[pos + 1].Empty? || t[pos + 1].distance == 0 then t[pos := Empty]
    else
      var next := EndOf(t, pos + 1, pos + 2) - 1;
      Removed(t[pos := t[next].(distance := t[next].distance - (next - pos))], next)
  }

  /** One turn of the removal loop. */
  lemma RemovedTurn<V>(t: seq<Slot<V>>, pos: nat, next: nat)
    requires pos + 1 < |t| && t[pos].Entry? && t[pos + 1].Entry? && t[pos + 1].distance > 0
    requires next + 1 == EndOf(t, pos + 1, pos + 2)
    ensures t[next].Entry? && t[next].distance >= next - pos
    ensures Removed(t, pos) == Removed(t[pos := t[next].(distance := t[next].distance - (next - pos))], next)
  {
  }

  lemma RemovedStop<V>(t: seq<Slot<V>>, pos: nat)
    requires pos < |t| && t[pos].Entry? && (pos + 1 == |t| || t[pos + 1].Empty? || t[pos + 1].distance == 0)
    ensures Removed(t, pos) == t[pos := Empty]
  {
  }

  lemma RemoveStep<V>(t: seq<Slot<V>>, pos: nat)
    requires Clustered(t) && pos + 1 < |t| && t[pos].Entry? && t[pos + 1].Entry? && t[pos + 1].distance > 0
    ensures var next := EndOf(t, pos + 1, pos + 2) - 1;
            Clustered(t[pos := t[next].(distance := t[next].distance - (next - pos))])
  {
    var next := EndOf(t, pos + 1, pos + 2) - 1;
    var u := t[pos := t[next].(distance := t[next].distance - (next - pos))];
    assert OkAt(t, pos) && OkAt(t, pos + 1);
    forall i: nat | i < |u| ensures OkAt(u, i) {
      assert OkAt(t, i);
    }
  }

  lemma RemoveStepItems<V(!new)>(t: seq<Slot<V>>, pos: nat, next: nat, e: Slot<V>)
    requires pos < next < |t| && t[next].Entry? && DistinctBut(t, pos)
    requires e.Entry? && Item(e.key, e.value, pos - e.distance) == ItemAt(t, next)
    ensures var u := t[pos := e];
            DistinctBut(u, next) && ItemsBut(u, next) == ItemsBut(t, pos)
  {
    var u := t[pos := e];
    assert ItemAt(u, pos) == ItemAt(t, next);
    forall it ensures it in ItemsBut(u, next) <==> it in ItemsBut(t, pos) {
      if it in ItemsBut(u, next) {
        var i: nat :| i < |u| && i != next && u[i].Entry? && ItemAt(u, i) == it;
        assert ItemAt(t, if i == pos then next else i) == it;
      }
      if it in ItemsBut(t, pos) {
        var i: nat :| i < |t| && i != pos && t[i].Entry? && ItemAt(t, i) == it;
        assert ItemAt(u, if i == next then pos else i) == it;
      }
    }
  }

  /** Removal keeps the table clustered and takes away exactly the item at `pos`. */
  lemma {:induction false} RemovedKeeps<V(!new)>(t: seq<Slot<V>>, pos: nat)
    requires Clustered(t) && pos < |t| && t[pos].Entry? && DistinctBut(t, pos)
    ensures var t' := Removed(t, pos);
            Clustered(t') && Distinct(t') && Items(t') == ItemsBut(t, pos)
    decreases |t| - pos
  {
    if pos + 1 == |t| || t[pos + 1].Empty? || t[pos + 1].distance == 0 {
      var u := t[pos := Empty];
      forall i: nat | i < |u| ensures OkAt(u, i) {
        assert OkAt(t, i);
      }
      UpdateItems(t, pos, Empty);
    } else {
      RemoveStep(t, pos);
      var next := EndOf(t, pos + 1, pos + 2) - 1;
      var e := t[next].(distance := t[next].distance - (next - pos));
      RemoveStepItems(t, pos, next, e);
      RemovedKeeps(t[pos := e], next);
    }
  }

  lemma {:induction false} RemovedFresh<V(!new)>(t: seq<Slot<V>>, pos: nat, bits: nat, remapEnd: int)
    requires pos < |t| && t[pos].Entry?
    requires forall i: nat :: remapEnd < i < |t| && i != pos ==> FreshAt(t, bits, i)
    ensures FreshAbove(Removed(t, pos), bits, remapEnd)
    decreases |t| - pos
  {
    if pos + 1 == |t| || t[pos + 1].Empty? || t[pos + 1].distance == 0 {
      var u := t[pos := Empty];
      forall i: nat | remapEnd < i < |u| ensures FreshAt(u, bits, i) {
        if i != pos {
          assert FreshAt(t, bits, i);
        }
      }
    } else {
      var next := EndOf(t, pos + 1, pos + 2) - 1;
      var u := t[pos := t[next].(distance := t[next].distance - (next - pos))];
      forall i: nat | remapEnd < i < |u| && i != next ensures FreshAt(u, bits, i) {
        assert FreshAt(t, bits, if i == pos then next else i);
      }
      RemovedFresh(u, next, bits, remapEnd);
    }
  }
}
