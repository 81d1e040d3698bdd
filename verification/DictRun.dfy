/** Insert, Remove, Lookup and NthEntry as steps on the value of a whole dictionary, and the proof
    that every run of them is a run of a plain finite map with an insertion order. */
module DictRun {
  import Seqs
  import opened Options
  import opened DictTable
  import opened DictState

  const REMAP_ENTRIES: nat := 16
  const LOAD_FACTOR_100: nat := 75
  const MIN_LOAD_FACTOR_100: nat := 25
  const SPACE_DISTANCE_THRESHOLD: nat := 32
  const MIN_SPACE_DISTANCE_SAMPLES: nat := 128
  const THRESHOLD_BITS: nat := 3

  // ---------------------------------------------------------------- the bottom-up sweep

  /** Step `remapEnd` down over a slot that needs no remapping; below slot 0 the remap is done. */
  function Lowered<V>(s: Table<V>): (s': Table<V>)
    requires Shaped(s) && s.remapEnd >= 0
    ensures Shaped(s') && s'.slots == s.slots && s'.bits == s.bits
  {
    if s.remapEnd == 0 then s.(remapEnd := -1, remaps := 0) else s.(remapEnd := s.remapEnd - 1)
  }

  predicate Outdated<V>(s: Table<V>, p: int)
    requires Shaped(s) && 0 <= p < |s.slots|
  {
    s.slots[p].Entry? && !FreshAt(s.slots, s.bits, p)
  }

  /** Remap(): move at most `left` out-of-date entries, from `remapEnd` downwards. A move that
      doubles the table raises `remapEnd` again, but has used up one of the moves. */
  function Swept<V>(s: Table<V>, left: nat): (s': Table<V>)
    requires Shaped(s)
    ensures Shaped(s') && |s'.slots| >= |s.slots| && s'.bits >= s.bits
    decreases left, s.remapEnd + 1
  {
    if s.remapEnd < 0 || left == 0 then s
    else if Outdated(s, s.remapEnd) then Swept(Moved(s, s.remapEnd), left - 1)
    else Swept(Lowered(s), left)
  }

  /** One turn of the remap loop. */
  lemma SweptTurn<V>(s: Table<V>, left: nat)
    requires Shaped(s)
    ensures s.remapEnd >= 0 && left > 0 ==>
              Swept(s, left) == if Outdated(s, s.remapEnd) then Swept(Moved(s, s.remapEnd), left - 1)
                  else Swept(Lowered(s), left)
    ensures s.remapEnd < 0 || left == 0 ==> Swept(s, left) == s
  {
  }

  lemma LoweredKeeps<V(!new)>(s: Table<V>)
    requires Valid(s) && 0 <= s.remapEnd && !Outdated(s, s.remapEnd)
    ensures Valid(Lowered(s))
  {
    var s' := Lowered(s);
    forall i: nat | s'.remapEnd < i < |s.slots| ensures FreshAt(s.slots, s.bits, i) {
    }
    if s.remapEnd == 0 {
      forall it | it in Items(s.slots) ensures KnownItem(it, s.bits, 0) {
        var i: nat :| i < |s.slots| && s.slots[i].Entry? && ItemAt(s.slots, i) == it;
        assert FreshAt(s.slots, s.bits, i);
        assert KnownHome(it.key.hash, it.bucket, s.bits, 0);
      }
    }
  }

  /** The sweep keeps the invariant and the map: in particular no key is lost when it reaches the
      bottom and forgets the earlier table sizes. */
  lemma {:induction false} SweptKeeps<V(!new)>(s: Table<V>, left: nat)
    requires Valid(s)
    ensures Valid(Swept(s, left)) && Contents(Swept(s, left).slots) == Contents(s.slots)
    decreases left, s.remapEnd + 1
  {
    hide Valid, Contents, Moved;
    if s.remapEnd >= 0 && left > 0 {
      if Outdated(s, s.remapEnd) {
        SweepNeverStrands(s);
        MovedKeeps(s, s.remapEnd);
        SweptKeeps(Moved(s, s.remapEnd), left - 1);
      } else {
        LoweredKeeps(s);
        SweptKeeps(Lowered(s), left);
      }
    }
  }

  // ---------------------------------------------------------------- a dictionary and its invariant

  /** The fields of a Dictionary. `order` is used only when `ordered`. */
  datatype Dict<V> = Dict(
    table: Table<V>, entries: int, iters: nat, samples: nat, sum: int, ordered: bool, order: seq<Key>)

  function Map<V>(d: Dict<V>): map<Key, V> { Contents(d.table.slots) }

  /** The order lists each key of the map once. */
  ghost predicate Lists(order: seq<Key>, keys: set<Key>) {
    Seqs.Distinct(order) && forall k :: k in order <==> k in keys
  }

  ghost predicate Counted<V>(entries: int, ordered: bool, order: seq<Key>, m: map<Key, V>) {
    entries == |m| && if ordered then Lists(order, m.Keys) else order == []
  }

  ghost predicate Good<V(!new)>(d: Dict<V>) {
    Valid(d.table) && Counted(d.entries, d.ordered, d.order, Map(d))
  }

  /** A size-up resets the statistics that ask for one. */
  function WithTable<V>(d: Dict<V>, s: Table<V>): Dict<V> {
    if s.bits > d.table.bits then d.(table := s, samples := 0, sum := 0) else d.(table := s)
  }

  // ---------------------------------------------------------------- insert

  function Initialised<V>(s: Table<V>): (s': Table<V>)
    requires Shaped(s)
    ensures Shaped(s') && s'.slots != []
  {
    if s.slots == [] then s.(slots := Padded([], Capacity(s.bits))) else s
  }

  function Threshold(bits: nat): nat {
    if bits <= THRESHOLD_BITS then Capacity(bits) else Capacity(bits) * LOAD_FACTOR_100 / 100
  }

  /** Too full, or free slots too far away. */
  predicate WantsSizeUp<V>(d: Dict<V>) {
    || d.entries > Threshold(d.table.bits)
    || (&& d.samples > MIN_SPACE_DISTANCE_SAMPLES
        && d.sum > d.samples * SPACE_DISTANCE_THRESHOLD
        && d.entries > MIN_LOAD_FACTOR_100 * |d.table.slots| / 100)
  }

  function InsertPosition<V>(s: Table<V>, key: Key): (pos: nat)
    requires Shaped(s) && s.slots != []
    ensures Home(key.hash, s.bits) <= pos <= |s.slots|
  {
    ClusterEnd(s.slots, Home(key.hash, s.bits), Home(key.hash, s.bits))
  }

  function NewEntry<V>(s: Table<V>, key: Key, v: V): Slot<V>
    requires Shaped(s) && s.slots != []
  {
    Entry(key, v, InsertPosition(s, key) - Home(key.hash, s.bits))
  }

  /** A key that is not in the table is put at the end of its cluster. */
  function Appended<V>(d: Dict<V>, key: Key, v: V): (d': Dict<V>)
    requires Shaped(d.table) && d.table.slots != []
    ensures Shaped(d'.table) && d'.table.slots != []
  {
    var pos := InsertPosition(d.table, key);
    var d1 := WithTable(d, Added(d.table, NewEntry(d.table, key, v), pos));
    d1.(entries := d.entries + 1,
        samples := d1.samples + 1,
        sum := d1.sum + (Last(d.table.slots, pos) - pos),
        order := if d.ordered then d.order + [key] else d.order)
  }

  /** Insert up to and including the size-up it may trigger. */
  function Placed<V>(d: Dict<V>, key: Key, v: V): (d': Dict<V>)
    requires Shaped(d.table)
    ensures Shaped(d'.table) && d'.table.slots != []
  {
    var d0 := d.(table := Initialised(d.table));
    var p := Position(d0.table, d.iters, key);
    if p >= 0 then
      var d1 := WithTable(d0, Looked(d0.table, d.iters, key));
      d1.(table := Overwritten(d1.table, p, v))
    else
      var d1 := Appended(d0, key, v);
      if WantsSizeUp(d1) then WithTable(d1, SizedUp(d1.table)) else d1
  }

  /** The dictionary after Insert(key, v): one round of remapping unless an iteration is under way. */
  function Inserting<V>(d: Dict<V>, key: Key, v: V): (d': Dict<V>)
    requires Shaped(d.table)
    ensures Shaped(d'.table) && d'.table.slots != []
  {
    var d1 := Placed(d, key, v);
    if d1.table.remapEnd >= 0 && d1.iters == 0 then WithTable(d1, Swept(d1.table, REMAP_ENTRIES)) else d1
  }

  lemma InitialisedKeeps<V(!new)>(s: Table<V>)
    requires Valid(s)
    ensures Valid(Initialised(s)) && Contents(Initialised(s).slots) == Contents(s.slots)
  {
    if s.slots == [] {
      PaddedKeeps<V>([], Capacity(s.bits));
      assert Contents<V>([]) == map[];
      assert Contents(Initialised(s).slots) == map[];
    }
  }

  lemma NewEntryFits<V(!new)>(s: Table<V>, key: Key, v: V)
    requires Valid(s) && s.slots != []
    ensures Fits(s.slots, NewEntry(s, key, v), InsertPosition(s, key))
    ensures Fresh(NewEntry(s, key, v), InsertPosition(s, key), s.bits)
  {
  }

  lemma CountedPlus<V>(entries: int, ordered: bool, order: seq<Key>, m: map<Key, V>, key: Key, v: V)
    requires Counted(entries, ordered, order, m) && key !in m
    ensures Counted(entries + 1, ordered, if ordered then order + [key] else order, m[key := v])
  {
    assert m[key := v].Keys == m.Keys + {key};
  }

  lemma CountedSame<V>(entries: int, ordered: bool, order: seq<Key>, m: map<Key, V>, key: Key, v: V)
    requires Counted(entries, ordered, order, m) && key in m
    ensures Counted(entries, ordered, order, m[key := v])
  {
    assert m[key := v].Keys == m.Keys;
  }

  ghost predicate InsertSpec<V(!new)>(d: Dict<V>, key: Key, v: V, d': Dict<V>) {
    && Good(d')
    && Map(d') == Map(d)[key := v]
    && d'.order == (if d.ordered && key !in Map(d) then d.order + [key] else d.order)
    && d'.ordered == d.ordered && d'.iters == d.iters
  }

  lemma AppendedKeeps<V(!new)>(d: Dict<V>, key: Key, v: V)
    requires Good(d) && d.table.slots != [] && Absent(d.table.slots, key) && key !in Map(d)
    ensures InsertSpec(d, key, v, Appended(d, key, v))
  {
    hide Valid, Contents, Added, Last;
    NewEntryFits(d.table, key, v);
    AddedKeeps(d.table, NewEntry(d.table, key, v), InsertPosition(d.table, key));
    CountedPlus(d.entries, d.ordered, d.order, Map(d), key, v);
  }

  lemma PlacedOverwrites<V(!new)>(d: Dict<V>, key: Key, v: V)
    requires Good(d) && d.table.slots != [] && !Loses(d.table, d.iters, key) && Position(d.table, d.iters, key) >= 0
    ensures InsertSpec(d, key, v, Placed(d, key, v))
  {
    hide Valid, Contents, Looked, Position, Overwritten, Loses;
    var s := Looked(d.table, d.iters, key);
    LookedKeeps(d.table, d.iters, key);
    OverwrittenKeeps(s, Position(d.table, d.iters, key), v);
    CountedSame(d.entries, d.ordered, d.order, Map(d), key, v);
  }

  lemma PlacedAppends<V(!new)>(d: Dict<V>, key: Key, v: V)
    requires Good(d) && d.table.slots != [] && Position(d.table, d.iters, key) < 0
    ensures InsertSpec(d, key, v, Placed(d, key, v))
  {
    hide Contents, Looked, Appended, SizedUp;
    LookedKeeps(d.table, d.iters, key);
    AppendedKeeps(d, key, v);
    SizedUpKeeps(Appended(d, key, v).table);
  }

  lemma PlacedKeeps<V(!new)>(d: Dict<V>, key: Key, v: V)
    requires Good(d) && !Loses(Initialised(d.table), d.iters, key)
    ensures InsertSpec(d, key, v, Placed(d, key, v))
  {
    hide Valid, Contents, Looked, Position, Appended, Overwritten, SizedUp, Loses;
    InitialisedKeeps(d.table);
    var d0 := d.(table := Initialised(d.table));
    if Position(d0.table, d.iters, key) >= 0 {
      PlacedOverwrites(d0, key, v);
    } else {
      PlacedAppends(d0, key, v);
    }
  }

  /** Insert maps the key to the value, keeps every other key and keeps the invariant; a new key
      goes to the end of the order and an overwritten one keeps its place. */
  lemma InsertKeeps<V(!new)>(d: Dict<V>, key: Key, v: V)
    requires Good(d) && !Loses(Initialised(d.table), d.iters, key)
    ensures InsertSpec(d, key, v, Inserting(d, key, v))
  {
    hide Valid, Contents, Placed, Swept;
    PlacedKeeps(d, key, v);
    SweptKeeps(Placed(d, key, v).table, REMAP_ENTRIES);
  }

  // ---------------------------------------------------------------- remove

  /** Drop the first occurrence of `key`. */
  function Erased(order: seq<Key>, key: Key): seq<Key> {
    if order == [] then []
    else if order[0] == key then order[1..]
    else [order[0]] + Erased(order[1..], key)
  }

  lemma {:induction false} ErasedAt(order: seq<Key>, key: Key, i: nat)
    requires i <= |order| && (forall j :: 0 <= j < i ==> order[j] != key) && (i < |order| ==> order[i] == key)
    ensures Erased(order, key) == if i < |order| then order[..i] + order[i + 1..] else order
  {
    if i > 0 {
      ErasedAt(order[1..], key, i - 1);
    }
  }

  lemma {:induction false} ErasedKeys(order: seq<Key>, key: Key, k: Key)
    requires Seqs.Distinct(order)
    ensures k in Erased(order, key) <==> k in order && k != key
  {
    if order != [] {
      assert order == [order[0]] + order[1..];
      ErasedKeys(order[1..], key, k);
    }
  }

  lemma {:induction false} ErasedDistinct(order: seq<Key>, key: Key)
    requires Seqs.Distinct(order)
    ensures Seqs.Distinct(Erased(order, key))
  {
    if order != [] && order[0] != key {
      ErasedDistinct(order[1..], key);
      ErasedKeys(order[1..], key, order[0]);
      assert order[0] !in order[1..];
    }
  }

  lemma CountedMinus<V>(entries: int, ordered: bool, order: seq<Key>, m: map<Key, V>, key: Key)
    requires Counted(entries, ordered, order, m)
    ensures Counted(if key in m then entries - 1 else entries, ordered, Erased(order, key), m - {key})
    ensures key !in m ==> m - {key} == m && Erased(order, key) == order
  {
    assert (m - {key}).Keys == m.Keys - {key};
    if key !in m {
      assert m - {key} == m;
    }
    if ordered {
      ErasedDistinct(order, key);
      forall k ensures k in Erased(order, key) <==> k in order && k != key {
        ErasedKeys(order, key, k);
      }
      if key !in m {
        ErasedAbsent(order, key);
      }
    }
  }

  lemma {:induction false} ErasedAbsent(order: seq<Key>, key: Key)
    requires key !in order
    ensures Erased(order, key) == order
  {
    if order != [] {
      assert order == [order[0]] + order[1..];
      ErasedAbsent(order[1..], key);
    }
  }

  function Removing<V>(d: Dict<V>, key: Key): (d': Dict<V>)
    requires Shaped(d.table)
    ensures Shaped(d'.table)
  {
    var p := Position(d.table, d.iters, key);
    if p < 0 then d
    else
      var d1 := WithTable(d, Looked(d.table, d.iters, key));
      d1.(table := Without(d1.table, p), entries := d1.entries - 1, order := Erased(d1.order, key))
  }

  /** Remove takes the key out of the map and out of the order, and keeps the invariant. */
  lemma RemoveKeeps<V(!new)>(d: Dict<V>, key: Key)
    requires Good(d) && !Loses(d.table, d.iters, key)
    ensures var d' := Removing(d, key);
            && Good(d')
            && Map(d') == Map(d) - {key}
            && d'.order == Erased(d.order, key)
            && d'.ordered == d.ordered && d'.iters == d.iters
  {
    hide Valid, Contents, Looked, Position, Without, Loses;
    LookedKeeps(d.table, d.iters, key);
    CountedMinus(d.entries, d.ordered, d.order, Map(d), key);
    var p := Position(d.table, d.iters, key);
    if p >= 0 {
      WithoutKeeps(Looked(d.table, d.iters, key), p);
    }
  }

  // ---------------------------------------------------------------- runs

  datatype Op<V> =
    | Insert(key: Key, value: V)
    | Remove(key: Key)
    | Lookup(key: Key)
    | NthEntry(n: int)
    | BeginIteration
    | EndIteration

  /** The table an operation starts its lookup from, and the key it looks up. */
  function LookedUp<V>(d: Dict<V>, op: Op<V>): Option<Key> {
    match op
    case Insert(k, _) => Some(k)
    case Remove(k) => Some(k)
    case Lookup(k) => Some(k)
    case NthEntry(n) => if d.ordered && 0 <= n < d.entries && n < |d.order| then Some(d.order[n]) else None
    case _ => None
  }

  /** The operation does not meet the failing case of the eager remap. */
  predicate Safe<V>(d: Dict<V>, op: Op<V>)
    requires Shaped(d.table)
  {
    var k := LookedUp(d, op);
    k.Some? ==> !Loses(if op.Insert? then Initialised(d.table) else d.table, d.iters, k.value)
  }

  function ValueAt<V>(s: Table<V>, p: int): Option<V>
    requires p < |s.slots| && (p >= 0 ==> s.slots[p].Entry?)
  {
    if p >= 0 then Some(s.slots[p].value) else None
  }

  /** One operation: the dictionary afterwards and what the caller gets back. */
  function Step<V>(d: Dict<V>, op: Op<V>): (r: (Dict<V>, Option<V>))
    requires Shaped(d.table)
    ensures Shaped(r.0.table)
  {
    match op
    case Insert(k, v) =>
      var s := Initialised(d.table);
      (Inserting(d, k, v), ValueAt(Looked(s, d.iters, k), Position(s, d.iters, k)))
    case Remove(k) =>
      (Removing(d, k), ValueAt(Looked(d.table, d.iters, k), Position(d.table, d.iters, k)))
    case BeginIteration => (d.(iters := d.iters + 1), None)
    case EndIteration => (if d.iters > 0 then d.(iters := d.iters - 1) else d, None)
    case _ =>
      var k := LookedUp(d, op);
      if k.None? then (d, None)
      else (WithTable(d, Looked(d.table, d.iters, k.value)),
            ValueAt(Looked(d.table, d.iters, k.value), Position(d.table, d.iters, k.value)))
  }

  /** What a plain map with an insertion order does. */
  datatype Model<V> = Model(m: map<Key, V>, order: seq<Key>)

  function Get<V>(m: map<Key, V>, k: Key): Option<V> { if k in m then Some(m[k]) else None }

  function ModelStep<V>(a: Model<V>, ordered: bool, op: Op<V>): (Model<V>, Option<V>) {
    match op
    case Insert(k, v) =>
      (Model(a.m[k := v], if ordered && k !in a.m then a.order + [k] else a.order), Get(a.m, k))
    case Remove(k) => (Model(a.m - {k}, Erased(a.order, k)), Get(a.m, k))
    case Lookup(k) => (a, Get(a.m, k))
    case NthEntry(n) => (a, if ordered && 0 <= n < |a.order| then Get(a.m, a.order[n]) else None)
    case _ => (a, None)
  }

  function Abstract<V>(d: Dict<V>): Model<V> { Model(Map(d), d.order) }

  lemma OrderLength(order: seq<Key>, keys: set<Key>)
    requires Lists(order, keys)
    ensures |order| == |keys|
  {
    Seqs.DistinctCount(order);
    assert Seqs.Elements(order) == keys;
  }

  ghost predicate Refines<V(!new)>(d: Dict<V>, op: Op<V>)
    requires Shaped(d.table)
  {
    var (d', r) := Step(d, op);
    && Good(d')
    && (Abstract(d'), r) == ModelStep(Abstract(d), d.ordered, op)
    && d'.ordered == d.ordered
  }

  lemma ValueAtIsGet<V(!new)>(s: Table<V>, iters: nat, key: Key)
    requires Valid(s)
    ensures ValueAt(Looked(s, iters, key), Position(s, iters, key)) == Get(Contents(s.slots), key)
  {
    LookedKeeps(s, iters, key);
  }

  lemma LookupRefines<V(!new)>(d: Dict<V>, op: Op<V>, k: Key)
    requires Good(d) && Safe(d, op) && (op.Lookup? || op.NthEntry?) && LookedUp(d, op) == Some(k)
    requires op.NthEntry? ==> |d.order| == |Map(d)|
    ensures Refines(d, op)
  {
    hide Valid, Contents, Looked, Position, Find;
    ValueAtIsGet(d.table, d.iters, k);
    LookedKeeps(d.table, d.iters, k);
  }

  /** Every operation outside the failing case refines the map: same answer, same map, same order,
      invariant kept, and num_entries is the size of the map. */
  lemma StepRefines<V(!new)>(d: Dict<V>, op: Op<V>)
    requires Good(d) && Safe(d, op)
    ensures Refines(d, op) && Step(d, op).0.entries == |Map(Step(d, op).0)|
  {
    hide Valid, Contents, Looked, Position, Inserting, Removing;
    match op
    case Insert(k, v) =>
      InitialisedKeeps(d.table);
      ValueAtIsGet(Initialised(d.table), d.iters, k);
      InsertKeeps(d, k, v);
    case Remove(k) =>
      ValueAtIsGet(d.table, d.iters, k);
      RemoveKeeps(d, k);
    case Lookup(k) =>
      LookupRefines(d, op, k);
    case NthEntry(n) =>
      if d.ordered {
        OrderLength(d.order, Map(d).Keys);
        if 0 <= n < |d.order| {
          LookupRefines(d, op, d.order[n]);
        }
      }
    case _ =>
  }

  /** The answers of a run and the state it ends in. */
  function Run<V>(d: Dict<V>, ops: seq<Op<V>>): (r: (Dict<V>, seq<Option<V>>))
    requires Shaped(d.table)
    ensures Shaped(r.0.table)
    decreases |ops|
  {
    if ops == [] then (d, [])
    else
      var (d1, r) := Step(d, ops[0]);
      var (d2, rs) := Run(d1, ops[1..]);
      (d2, [r] + rs)
  }

  function ModelRun<V>(a: Model<V>, ordered: bool, ops: seq<Op<V>>): (Model<V>, seq<Option<V>>)
    decreases |ops|
  {
    if ops == [] then (a, [])
    else
      var (a1, r) := ModelStep(a, ordered, ops[0]);
      var (a2, rs) := ModelRun(a1, ordered, ops[1..]);
      (a2, [r] + rs)
  }

  predicate SafeRun<V>(d: Dict<V>, ops: seq<Op<V>>)
    requires Shaped(d.table)
    decreases |ops|
  {
    ops == [] || (Safe(d, ops[0]) && SafeRun(Step(d, ops[0]).0, ops[1..]))
  }

  /** Over every run of operations, with size-ups and partial remaps anywhere, the dictionary is a
      finite map: same answers, same contents, same order. */
  lemma {:induction false} RunRefines<V(!new)>(d: Dict<V>, ops: seq<Op<V>>)
    requires Good(d) && SafeRun(d, ops)
    ensures var (d', rs) := Run(d, ops);
            && Good(d')
            && (Abstract(d'), rs) == ModelRun(Abstract(d), d.ordered, ops)
            && d'.entries == |Map(d')|
    decreases |ops|
  {
    if ops != [] {
      StepRefines(d, ops[0]);
      RunRefines(Step(d, ops[0]).0, ops[1..]);
    }
  }

  /** A dictionary as constructed: no table until the first insertion, or an empty one of the
      requested size. */
  function New<V>(ordered: bool, bits: nat, initialised: bool): (d: Dict<V>) {
    var s: Table<V> := Table([], bits, 0, -1);
    Dict(if initialised then Initialised(s) else s, 0, 0, 0, 0, ordered, [])
  }

  lemma NewIsGood<V(!new)>(ordered: bool, bits: nat, initialised: bool)
    ensures Good(New<V>(ordered, bits, initialised)) && Abstract(New<V>(ordered, bits, initialised)) == Model(map[], [])
  {
    var s: Table<V> := Table([], bits, 0, -1);
    assert Items(s.slots) == iset{};
    assert Contents(s.slots) == map[];
    InitialisedKeeps(s);
  }

  /** An operation is safe whenever at most one size-up is unfinished or an iteration is under way. */
  lemma SafeWhen<V(!new)>(d: Dict<V>, op: Op<V>)
    requires Good(d) && (d.table.remaps <= 1 || d.iters > 0)
    ensures Safe(d, op)
  {
    var k := LookedUp(d, op);
    if k.Some? {
      InitialisedKeeps(d.table);
      SafeLookup(Initialised(d.table), d.iters, k.value);
      SafeLookup(d.table, d.iters, k.value);
    }
  }

  /** Every operation of the run starts with at most one unfinished size-up, or during an iteration. */
  predicate QuietRun<V>(d: Dict<V>, ops: seq<Op<V>>)
    requires Shaped(d.table)
    decreases |ops|
  {
    ops == [] || ((d.table.remaps <= 1 || d.iters > 0) && QuietRun(Step(d, ops[0]).0, ops[1..]))
  }

  lemma {:induction false} QuietIsSafe<V(!new)>(d: Dict<V>, ops: seq<Op<V>>)
    requires Good(d) && QuietRun(d, ops)
    ensures SafeRun(d, ops)
    decreases |ops|
  {
    hide Step, Safe, Counted;
    if ops != [] {
      SafeWhen(d, ops[0]);
      StepIsGood(d, ops[0]);
      QuietIsSafe(Step(d, ops[0]).0, ops[1..]);
    }
  }

  lemma StepIsGood<V(!new)>(d: Dict<V>, op: Op<V>)
    requires Good(d) && Safe(d, op)
    ensures Good(Step(d, op).0)
  {
    hide Good, Step, Safe;
    StepRefines(d, op);
  }

  /** From construction on, such a run answers as a finite map does, ends with its contents and order, and
      counts its entries. */
  lemma NewRefines<V(!new)>(ordered: bool, bits: nat, initialised: bool, ops: seq<Op<V>>)
    requires QuietRun(New<V>(ordered, bits, initialised), ops)
    ensures var (d, rs) := Run(New<V>(ordered, bits, initialised), ops);
            && Good(d)
            && (Abstract(d), rs) == ModelRun(Model(map[], []), ordered, ops)
            && d.entries == |Map(d)|
  {
    hide Good, QuietRun, SafeRun, Run, ModelRun;
    var d := New<V>(ordered, bits, initialised);
    NewIsGood<V>(ordered, bits, initialised);
    QuietIsSafe(d, ops);
    RunRefines(d, ops);
  }

  lemma {:induction false} RunAppends<V(!new)>(d: Dict<V>, ops: seq<Op<V>>, op: Op<V>)
    requires Shaped(d.table)
    ensures Run(d, ops + [op]).0 == Step(Run(d, ops).0, op).0
    ensures SafeRun(d, ops + [op]) <==> SafeRun(d, ops) && Safe(Run(d, ops).0, op)
    decreases |ops|
  {
    var all := ops + [op];
    if ops == [] {
      assert all[0] == op && all[1..] == [];
    } else {
      assert all[0] == ops[0] && all[1..] == ops[1..] + [op];
      RunAppends(Step(d, ops[0]).0, ops[1..], op);
    }
  }

  /** Some run of safe operations leads from construction to `d`. */
  ghost predicate Reachable<V(!new)>(d: Dict<V>) {
    exists ordered, bits, initialised, ops :: ReachedBy(ordered, bits, initialised, ops, d)
  }

  ghost predicate ReachedBy<V(!new)>(ordered: bool, bits: nat, initialised: bool, ops: seq<Op<V>>, d: Dict<V>) {
    var d0 := New<V>(ordered, bits, initialised);
    SafeRun(d0, ops) && Run(d0, ops).0 == d
  }

  lemma ReachableStep<V(!new)>(d: Dict<V>, op: Op<V>)
    requires Reachable(d) && Shaped(d.table) && Safe(d, op)
    ensures Reachable(Step(d, op).0)
  {
    var ordered, bits, initialised, ops :| ReachedBy(ordered, bits, initialised, ops, d);
    RunAppends(New<V>(ordered, bits, initialised), ops, op);
    assert ReachedBy(ordered, bits, initialised, ops + [op], Step(d, op).0);
  }

  /** Everything reachable satisfies the invariant. */
  lemma ReachableIsGood<V(!new)>(d: Dict<V>)
    requires Reachable(d)
    ensures Good(d)
  {
    var ordered, bits, initialised, ops :| ReachedBy(ordered, bits, initialised, ops, d);
    NewIsGood<V>(ordered, bits, initialised);
    RunRefines(New<V>(ordered, bits, initialised), ops);
  }
}
