/** Where unwritten bytes matter: two runs that differ in nothing else write equal values differently. */
module CompLoose {
  import opened Octet
  import opened HashBytes
  import opened CompVals
  import opened CompRound
  import opened CompOrder
  import opened CompKeys
  import opened CompSteps
  import opened CompGap
  import opened CompCanon
  import opened CompWhole

  /** As many bytes are left over as are reserved and not written. */
  ghost predicate Fair(w: World) {
    forall types, vs :: ListHas(types, vs) ==> |w.tail(types, vs)| == Gap(types, vs)
  }

  // ---------------------------------------------------------------- forms that do not change

  /** The same function tables, and the same order of keys shorter than n. */
  ghost predicate Agrees(w: World, w': World, n: nat) {
    && w.inner == w'.inner
    && forall a, b :: |a| < n && |b| < n ==> (Before(w.hash, a, b) <==> Before(w'.hash, a, b))
  }

  lemma {:induction false} LongerStart(a: seq<Byte>, b: seq<Byte>, ops: seq<Put>)
    requires |a| <= |b| && AllOk(ops)
    ensures |Written(a, ops)| <= |Written(b, ops)|
    decreases |ops|
  {
    if ops != [] {
      hide Padded, AlignUp, PutOk;
      StartAligned(a, b, ops[0]);
      LongerStart(Padded(a, ops[0].align) + ops[0].data, Padded(b, ops[0].align) + ops[0].data, ops[1..]);
    }
  }

  lemma StartAligned(a: seq<Byte>, b: seq<Byte>, p: Put)
    requires |a| <= |b| && PutOk(p)
    ensures |Padded(a, p.align) + p.data| <= |Padded(b, p.align) + p.data|
  {
    AlignMonotone(|a|, |b|, p.align);
  }

  /** A list of values written anywhere takes at least the bytes of its key. */
  lemma KeyIsShorter(f: seq<nat>, g: seq<nat>, types: seq<Type>, vs: seq<Val>, b: seq<Byte>)
    requires ListHas(types, vs)
    ensures |KeyBytes(f, types, vs)| <= |Written(b, ListOps(g, types, vs))|
  {
    if |types| == 1 && types[0].TString? {
      assert HasType(types[0], vs[0]);
      assert types[..0] == [] && vs[..0] == [];
      var text := vs[0].text;
      assert ListOps(g, types, vs) == [] + [Size4(|text|), Put(text, 0, |text|, 0)];
      assert ListOps(g, types, vs) == [Size4(|text|)] + [Put(text, 0, |text|, 0)];
      WrittenOne(b, Size4(|text|), [Put(text, 0, |text|, 0)]);
      WrittenOne(After(b, Size4(|text|)), Put(text, 0, |text|, 0), []);
    } else {
      hide ListOps;
      ListSound(f, types, vs, false);
      LongerStart([], b, ListOps(f, types, vs));
      ListRelated(f, g, types, vs, false);
      RelatedLength(b, b, ListOps(f, types, vs), ListOps(g, types, vs));
    }
  }

  lemma {:induction false} SortedAgrees(w: World, w': World, index: seq<Type>, es: seq<Entry>)
    requires Indexed(index, es)
    requires forall d, e :: d in es && e in es ==> (EntryBefore(w, index, d, e) <==> EntryBefore(w', index, d, e))
    ensures Sorted(w, index, es) == Sorted(w', index, es)
  {
    hide EntryBefore, ListHas;
    if es != [] {
      var n := |es| - 1;
      SortedAgrees(w, w', index, es[..n]);
      var r := Sorted(w, index, es[..n]);
      assert forall d :: d in r ==> d in es;
      PlacedAgrees(w, w', index, r, es[n]);
    }
  }

  lemma {:induction false} PlacedAgrees(w: World, w': World, index: seq<Type>, es: seq<Entry>, e: Entry)
    requires Indexed(index, es) && ListHas(index, e.index)
    requires forall d :: d in es ==> (EntryBefore(w, index, d, e) <==> EntryBefore(w', index, d, e))
    ensures Placed(w, index, es, e) == Placed(w', index, es, e)
  {
    hide EntryBefore, ListHas;
    if es != [] {
      var n := |es| - 1;
      assert es[n] in es;
      PlacedAgrees(w, w', index, es[..n], e);
    }
  }

  /** A value whose tables are firm, and which is written in fewer than n bytes, keeps its form in any
      run that orders the keys shorter than n alike. */
  lemma {:induction false} Stays(w: World, w': World, n: nat, t: Type, v: Val, f: seq<nat>, b: seq<Byte>)
    requires HasType(t, v) && Agrees(w, w', n) && forall x :: Occurs(x, t, v) ==> Fixed(w, x)
    requires |Written(b, Ops(f, t, Canon(w, t, v)))| < n
    ensures Canon(w', t, v) == Canon(w, t, v)
    decreases v, 2
  {
    hide Sorted, Agrees, CanonTable, EntryHas, ElemHas, CanonMaybe, Fixed, OccursMaybe, OccursEntries, OccursList;
    hide Written;
    hide FieldOps, ElemOps, ListOps, EntryOps, ListHas, CanonList, OccursFields, OccursElems, CanonFields, CanonElems;
    hide FieldsHave;
    match t {
      case TRecord(fields) =>
        StaysFields(w, w', n, fields, v.fields, f, b);
      case TVector(elem) =>
        WrittenOne(b, Size4(|v.elems|), ElemOps(f, elem, CanonElems(w, elem, v.elems)));
        StaysElems(w, w', n, elem, v.elems, f, After(b, Size4(|v.elems|)));
      case TList(types) =>
        WrittenOne(b, Size4(|v.vals|), ListOps(f, types, CanonList(w, types, v.vals)));
        StaysList(w, w', n, types, v.vals, f, After(b, Size4(|v.vals|)));
      case TTable(index, result) =>
        assert Occurs(Tab(index, result, v.entries), t, v);
        WrittenOne(b, Size4(|v.entries|), EntryOps(f, index, result, CanonTable(w, index, result, v.entries)));
        StaysTable(w, w', n, index, result, v.entries, f, After(b, Size4(|v.entries|)));
      case _ =>
    }
  }

  lemma {:induction false} StaysMaybe(w: World, w': World, n: nat, t: Type, o: Maybe, f: seq<nat>, b: seq<Byte>)
    requires ElemHas(t, o) && Agrees(w, w', n) && forall x :: OccursMaybe(x, t, o) ==> Fixed(w, x)
    requires |Written(b, MaybeOps(f, t, CanonMaybe(w, t, o)))| < n
    ensures CanonMaybe(w', t, o) == CanonMaybe(w, t, o)
    decreases o, 1
  {
    hide Canon, HasType, Agrees, Fixed, Occurs, Written, Ops;
    if o.Just? {
      assert forall x :: Occurs(x, t, o.v) ==> OccursMaybe(x, t, o);
      Stays(w, w', n, t, o.v, f, b);
    }
  }

  lemma {:induction false} StaysFields(w: World, w': World, n: nat, fields: seq<Field>, os: seq<Maybe>, f: seq<nat>,
      b: seq<Byte>)
    requires FieldsHave(fields, os) && Agrees(w, w', n) && forall x :: OccursFields(x, fields, os) ==> Fixed(w, x)
    requires |Written(b, FieldOps(f, fields, CanonFields(w, fields, os)))| < n
    ensures CanonFields(w', fields, os) == CanonFields(w, fields, os)
    decreases os, 1
  {
    hide Agrees, Fixed, Written, FieldOps, MaybeOps, CanonMaybe, OccursMaybe, ElemHas, Flag;
    var cs := CanonFields(w, fields, os);
    forall i | 0 <= i < |os| ensures CanonMaybe(w', fields[i].t, os[i]) == CanonMaybe(w, fields[i].t, os[i]) {
      assert forall x :: OccursMaybe(x, fields[i].t, os[i]) ==> OccursFields(x, fields, os);
      FieldsStep(f, f, fields, cs, i, b, n - 1);
      assert cs[i] == CanonMaybe(w, fields[i].t, os[i]);
      var b1 := Written(b, FieldOps(f, fields[..i], cs[..i]));
      var flag := if fields[i].optional then [Flag(cs[i].Just?)] else [];
      WrittenJoin(b1, flag, MaybeOps(f, fields[i].t, cs[i]));
      StaysMaybe(w, w', n, fields[i].t, os[i], f, Written(b1, flag));
    }
  }

  lemma {:induction false} StaysElems(w: World, w': World, n: nat, t: Type, os: seq<Maybe>, f: seq<nat>, b: seq<Byte>)
    requires (forall i :: 0 <= i < |os| ==> ElemHas(t, os[i])) && Agrees(w, w', n)
    requires forall x :: OccursElems(x, t, os) ==> Fixed(w, x)
    requires |Written(b, ElemOps(f, t, CanonElems(w, t, os)))| < n
    ensures CanonElems(w', t, os) == CanonElems(w, t, os)
    decreases os, 1
  {
    hide Agrees, Fixed, Written, ElemOps, MaybeOps, CanonMaybe, OccursMaybe, ElemHas, Size4, Present;
    var cs := CanonElems(w, t, os);
    forall i | 0 <= i < |os| ensures CanonMaybe(w', t, os[i]) == CanonMaybe(w, t, os[i]) {
      assert forall x :: OccursMaybe(x, t, os[i]) ==> OccursElems(x, t, os);
      ElemsStep(f, f, t, cs, i, b, n - 1);
      assert cs[i] == CanonMaybe(w, t, os[i]);
      var b1, p, q := Written(b, ElemOps(f, t, cs[..i])), [Size4(i)], [Present(cs[i].Just?)];
      WrittenJoin(b1, p, q + MaybeOps(f, t, cs[i]));
      WrittenJoin(Written(b1, p), q, MaybeOps(f, t, cs[i]));
      StaysMaybe(w, w', n, t, os[i], f, Written(Written(b1, p), q));
    }
  }

  lemma {:induction false} StaysList(w: World, w': World, n: nat, types: seq<Type>, vs: seq<Val>, f: seq<nat>,
      b: seq<Byte>)
    requires ListHas(types, vs) && Agrees(w, w', n) && forall x :: OccursList(x, types, vs) ==> Fixed(w, x)
    requires |Written(b, ListOps(f, types, CanonList(w, types, vs)))| < n
    ensures CanonList(w', types, vs) == CanonList(w, types, vs)
    decreases vs, 1
  {
    hide Agrees, Fixed, Written, ListOps, Ops, Canon, Occurs, HasType;
    var cs := CanonList(w, types, vs);
    forall i | 0 <= i < |vs| ensures Canon(w', types[i], vs[i]) == Canon(w, types[i], vs[i]) {
      assert forall x :: Occurs(x, types[i], vs[i]) ==> OccursList(x, types, vs);
      ListStep(f, f, types, cs, i, b, n - 1);
      assert cs[i] == Canon(w, types[i], vs[i]);
      Stays(w, w', n, types[i], vs[i], f, Written(b, ListOps(f, types[..i], cs[..i])));
    }
  }

  /** An entry keeps its form, and its key is short. */
  lemma {:induction false} StaysEntry(w: World, w': World, n: nat, index: seq<Type>, result: Yield, e: Entry,
      f: seq<nat>, b: seq<Byte>)
    requires EntryHas(index, result, e) && Agrees(w, w', n) && forall x :: OccursEntry(x, index, result, e) ==>
             Fixed(w, x)
    requires |Written(b, OneEntry(f, index, result, CanonEntry(w, index, result, e)))| < n
    ensures CanonEntry(w', index, result, e) == CanonEntry(w, index, result, e)
    ensures |KeyBytes(w.inner(index), index, CanonList(w, index, e.index))| < n
    decreases e, 2
  {
    hide Agrees, Fixed, Written, ListOps, MaybeOps, CanonList, CanonMaybe, ListHas, HasType, OccursList, OccursMaybe;
    hide Size4, KeyBytes;
    var c := CanonEntry(w, index, result, e);
    var p, list := [Size4(|c.index|)], ListOps(f, index, c.index);
    var ops := if result.YieldOf? then MaybeOps(f, result.t, c.result) else [];
    assert OneEntry(f, index, result, c) == (p + list) + ops;
    WrittenJoin(b, p + list, ops);
    WrittenJoin(b, p, list);
    var b1 := Written(b, p);
    KeyIsShorter(w.inner(index), f, index, c.index, b1);
    assert forall x :: OccursList(x, index, e.index) ==> OccursEntry(x, index, result, e);
    StaysList(w, w', n, index, e.index, f, b1);
    if result.YieldOf? {
      assert forall x :: OccursMaybe(x, result.t, e.result) ==> OccursEntry(x, index, result, e);
      StaysMaybe(w, w', n, result.t, e.result, f, Written(b, p + list));
    }
  }

  lemma {:induction false} StaysTable(w: World, w': World, n: nat, index: seq<Type>, result: Yield, es: seq<Entry>,
      f: seq<nat>, b: seq<Byte>)
    requires TabOk(Tab(index, result, es)) && Agrees(w, w', n) && Fixed(w, Tab(index, result, es))
    requires forall x :: OccursEntries(x, index, result, es) ==> Fixed(w, x)
    requires |Written(b, EntryOps(f, index, result, CanonTable(w, index, result, es)))| < n
    ensures CanonTable(w', index, result, es) == CanonTable(w, index, result, es)
    decreases es, 3
  {
    hide Agrees, Fixed, Written, EntryOps, OneEntry, EntryHas, CanonEntry, OccursEntry, Sorted, ListHas, KeyBytes;
    hide Slack, CanonList;
    var cs, sorted := CanonEntries(w, index, result, es), CanonTable(w, index, result, es);
    forall i | 0 <= i < |es|
      ensures CanonEntry(w', index, result, es[i]) == CanonEntry(w, index, result, es[i])
      ensures |KeyBytes(w.inner(index), index, cs[i].index)| < n
    {
      assert cs[i] == CanonEntry(w, index, result, es[i]) && cs[i] in sorted;
      var k :| 0 <= k < |sorted| && sorted[k] == cs[i];
      EntriesStep(f, f, index, result, sorted, k, b, n - 1);
      assert forall x :: OccursEntry(x, index, result, es[i]) ==> OccursEntries(x, index, result, es);
      StaysEntry(w, w', n, index, result, es[i], f, Written(b, EntryOps(f, index, result, sorted[..k])));
      IndexOf(w, index, result, es[i]);
    }
    assert CanonEntries(w', index, result, es) == cs;
    FixedTight(w, Tab(index, result, es));
    SortedStays(w, w', n, index, cs);
  }

  lemma IndexOf(w: World, index: seq<Type>, result: Yield, e: Entry)
    requires EntryHas(index, result, e)
    ensures CanonEntry(w, index, result, e).index == CanonList(w, index, e.index)
  {
  }

  lemma SortedStays(w: World, w': World, n: nat, index: seq<Type>, cs: seq<Entry>)
    requires Indexed(index, cs) && Agrees(w, w', n) && (|cs| >= 2 ==> AllTight(w, index, cs))
    requires forall i :: 0 <= i < |cs| ==> |KeyBytes(w.inner(index), index, cs[i].index)| < n
    ensures Sorted(w', index, cs) == Sorted(w, index, cs)
  {
    if |cs| <= 1 {
      AtMostOne(w', w, index, cs, cs);
    } else {
      hide Sorted, KeyBytes, Slack, Before, ListHas;
      forall d, e | d in cs && e in cs ensures EntryBefore(w', index, d, e) <==> EntryBefore(w, index, d, e) {
        var i :| 0 <= i < |cs| && cs[i] == d;
        var j :| 0 <= j < |cs| && cs[j] == e;
        assert Slack(w.inner(index), index, cs[i].index) == 0 && Slack(w.inner(index), index, cs[j].index) == 0;
        TightIs(w, w', index, d.index);
        TightIs(w, w', index, e.index);
      }
      SortedAgrees(w', w, index, cs);
    }
  }

  lemma TightIs(w: World, w': World, index: seq<Type>, vs: seq<Val>)
    requires ListHas(index, vs) && w.inner == w'.inner && Slack(w.inner(index), index, vs) == 0
    ensures StoredKey(w, index, vs) == StoredKey(w', index, vs) == KeyBytes(w.inner(index), index, vs)
  {
    hide KeyBytes, Slack, ListHas;
    assert KeyBytes(w.inner(index), index, vs) + [] == KeyBytes(w.inner(index), index, vs);
  }

  // ---------------------------------------------------------------- a run that turns two entries round

  /** Hashes of the byte strings that extend a prefix by n bytes are bounded. */
  lemma {:induction false} BoundedFrom(hash: seq<Byte> -> nat, prefix: seq<Byte>, n: nat) returns (m: nat)
    ensures forall k :: |k| == |prefix| + n && prefix <= k ==> hash(k) < m
    decreases n
  {
    if n == 0 {
      m := hash(prefix) + 1;
      forall k | |k| == |prefix| && prefix <= k ensures k == prefix { }
    } else {
      m := 0;
      var c: int := 0;
      while c < 256
        invariant 0 <= c <= 256
        invariant forall k :: |k| == |prefix| + n && prefix <= k && k[|prefix|] < c ==> hash(k) < m
      {
        var more := BoundedFrom(hash, prefix + [c], n - 1);
        forall k | |k| == |prefix| + n && prefix <= k && k[|prefix|] == c ensures hash(k) < more {
          assert prefix + [c] <= k;
        }
        m := if more > m then more else m;
        c := c + 1;
      }
    }
  }

  lemma {:induction false} Bounded(hash: seq<Byte> -> nat, n: nat) returns (m: nat)
    ensures forall k :: |k| < n ==> hash(k) < m
  {
    if n == 0 {
      m := 0;
    } else {
      var m0 := Bounded(hash, n - 1);
      var m1 := BoundedFrom(hash, [], n - 1);
      m := if m0 > m1 then m0 else m1;
    }
  }

  /** The same order of short keys, but `low` before and `high` after everything else. */
  ghost function Turned(hash: seq<Byte> -> nat, n: nat, low: seq<Byte>, high: seq<Byte>, most: nat): seq<Byte> -> nat {
    k => if |k| < n then 1 + hash(k) else if k == low then 0 else if k == high then 2 + most else 1
  }

  ghost function Other(tail: seq<Byte>): (r: seq<Byte>)
    requires tail != []
    ensures |r| == |tail| && r != tail
  {
    var first: int := tail[0];
    var r := tail[0 := (first + 1) % 256];
    assert r[0] != tail[0];
    r
  }

  /** One run, and the same run with other bytes left in one key. */
  ghost function Turn(w: World, hash: seq<Byte> -> nat): World { World(hash, w.inner, w.tail) }

  ghost function Left(w: World, types: seq<Type>, vs: seq<Val>, tail: seq<Byte>): World {
    World(w.hash, w.inner, (ts, us) => if ts == types && us == vs then tail else w.tail(ts, us))
  }

  lemma LeftFair(w: World, types: seq<Type>, vs: seq<Val>, tail: seq<Byte>)
    requires Fair(w) && (ListHas(types, vs) ==> |tail| == Gap(types, vs))
    ensures Fair(Left(w, types, vs, tail)) && SameRun(w, Left(w, types, vs, tail))
  {
    hide Gap;
    var w' := Left(w, types, vs, tail);
    forall ts, us | ListHas(ts, us) ensures |w'.tail(ts, us)| == Gap(ts, us) {
      assert |w.tail(ts, us)| == Gap(ts, us);
    }
  }

  lemma TurnedAgrees(w: World, n: nat, low: seq<Byte>, high: seq<Byte>, most: nat)
    ensures Agrees(w, Turn(w, Turned(w.hash, n, low, high, most)), n)
  {
  }

  /** The two runs a table is written in: nothing but the bytes left in one key differs. */
  ghost predicate Twins(w: World, w1: World, w2: World) {
    SameRun(w1, w2) && w1.inner == w.inner && Fair(w1) && Fair(w2)
  }

  lemma EntryParts(x: Tab, i: nat)
    requires TabOk(x) && i < |x.entries|
    ensures ListHas(x.index, x.entries[i].index) && EntryHas(x.index, x.result, x.entries[i])
  {
    assert EntryHas(x.index, x.result, x.entries[i]);
  }

  /** Keys of different entries of a table differ, also between two runs. */
  lemma NeverEqual(w: World, w': World, x: Tab, i: nat, j: nat)
    requires TabOk(x) && Keyed(w, x) && w.inner == w'.inner && i < |x.entries| && j < |x.entries| && i != j
    requires ListHas(x.index, x.entries[i].index) && ListHas(x.index, x.entries[j].index)
    ensures StoredKey(w, x.index, CanonList(w, x.index, x.entries[i].index)) !=
            StoredKey(w', x.index, CanonList(w', x.index, x.entries[j].index))
  {
    hide StoredKey, CanonList, ListHas, AlikeList, CoversList;
    var a, b := x.entries[i].index, x.entries[j].index;
    if StoredKey(w, x.index, CanonList(w, x.index, a)) == StoredKey(w', x.index, CanonList(w', x.index, b)) {
      if i < j {
        KeysTell(w, w', x.index, a, b);
      } else {
        KeysTell(w', w, x.index, b, a);
      }
    }
  }

  /** The index of an entry keeps its form if short keys keep their order. */
  lemma StaysShort(w: World, w': World, n: nat, x: Tab, i: nat)
    requires TabOk(x) && i < |x.entries| && ListHas(x.index, x.entries[i].index) && Agrees(w, w', n)
    requires forall y :: OccursEntries(y, x.index, x.result, x.entries) ==> Fixed(w, y)
    requires !(|x.index| == 1 && x.index[0].TString?)
    requires |KeyBytes(w.inner(x.index), x.index, CanonList(w, x.index, x.entries[i].index))| < n
    ensures CanonList(w', x.index, x.entries[i].index) == CanonList(w, x.index, x.entries[i].index)
  {
    hide CanonList, ListHas, Agrees, Fixed, OccursList, EntryHas, ListOps, Written;
    assert EntryHas(x.index, x.result, x.entries[i]);
    assert forall y :: OccursList(y, x.index, x.entries[i].index) ==> OccursEntry(y, x.index, x.result, x.entries[i]);
    assert forall y :: OccursEntry(y, x.index, x.result, x.entries[i]) ==>
           OccursEntries(y, x.index, x.result, x.entries);
    StaysList(w, w', n, x.index, x.entries[i].index, w.inner(x.index), []);
  }

  lemma Between(hash: seq<Byte> -> nat, n: nat, low: seq<Byte>, high: seq<Byte>, most: nat, k: seq<Byte>)
    requires |low| == |high| == n && low != high && k != low && k != high && forall k :: |k| < n ==> hash(k) < most
    ensures var h := Turned(hash, n, low, high, most); Before(h, low, k) && Before(h, k, high)
  {
  }

  lemma StoredIs(w: World, index: seq<Type>, c: seq<Val>)
    requires ListHas(index, c) && Gap(index, c) > 0
    ensures StoredKey(w, index, c) == KeyBytes(w.inner(index), index, c) + w.tail(index, c)
  {
    hide KeyBytes, Slack, Gap, ListHas;
    SlackIsGap(w.inner(index), index, c);
  }

  /** An entry whose key has unwritten bytes can be made to come before, or after, another entry. */
  lemma TurnsRound(w: World, x: Tab, i: nat, j: nat) returns (w1: World, w2: World)
    requires TabOk(x) && Keyed(w, x) && Fair(w) && i < |x.entries| && j < |x.entries| && i != j
    requires ListHas(x.index, x.entries[i].index) && ListHas(x.index, x.entries[j].index)
    requires Gap(x.index, CanonList(w, x.index, x.entries[i].index)) > 0
    requires forall y :: OccursEntries(y, x.index, x.result, x.entries) ==> Fixed(w, y)
    ensures Twins(w, w1, w2)
    ensures var c := CanonList(w, x.index, x.entries[i].index);
            && CanonList(w1, x.index, x.entries[i].index) == c && CanonList(w2, x.index, x.entries[i].index) == c
            && var d1, d2 := CanonList(w1, x.index, x.entries[j].index), CanonList(w2, x.index, x.entries[j].index);
               && Before(w1.hash, StoredKey(w1, x.index, c), StoredKey(w1, x.index, d1))
               && Before(w2.hash, StoredKey(w2, x.index, d2), StoredKey(w2, x.index, c))
  {
    hide KeyBytes, Slack, Gap, CanonList, ListHas, AlikeList, CoversList, Fixed, OccursEntries, OccursEntry, StoredKey;
    hide Before;
    hide TabOk, Turned, Agrees;
    var index, a, b := x.index, x.entries[i].index, x.entries[j].index;
    var f, c := w.inner(index), CanonList(w, index, a);
    var tail := w.tail(index, c);
    assert |tail| == Gap(index, c);
    var low, high := KeyBytes(f, index, c) + tail, KeyBytes(f, index, c) + Other(tail);
    var n := |low|;
    assert low != high by {
      assert low[|KeyBytes(f, index, c)|..] == tail && high[|KeyBytes(f, index, c)|..] == Other(tail);
    }
    NotString(index, c);
    var most := Bounded(w.hash, n);
    w1 := Turn(w, Turned(w.hash, n, low, high, most));
    w2 := Left(w1, index, c, Other(tail));
    assert Fair(w1) by {
      forall ts, us | ListHas(ts, us) ensures |w1.tail(ts, us)| == Gap(ts, us) {
        assert |w.tail(ts, us)| == Gap(ts, us);
      }
    }
    LeftFair(w1, index, c, Other(tail));
    TurnedAgrees(w, n, low, high, most);
    AgreesToo(w, w1, w2, n);
    StaysShort(w, w1, n, x, i);
    StaysShort(w, w2, n, x, i);
    StoredIs(w1, index, c);
    StoredIs(w2, index, c);
    KeyedToo(w, w1, x);
    KeyedToo(w, w2, x);
    NeverEqual(w1, w1, x, i, j);
    NeverEqual(w1, w2, x, i, j);
    NeverEqual(w2, w1, x, i, j);
    NeverEqual(w2, w2, x, i, j);
    Between(w.hash, n, low, high, most, StoredKey(w1, index, CanonList(w1, index, b)));
    Between(w.hash, n, low, high, most, StoredKey(w2, index, CanonList(w2, index, b)));
  }

  lemma NotString(index: seq<Type>, c: seq<Val>)
    requires ListHas(index, c) && Gap(index, c) > 0
    ensures !(|index| == 1 && index[0].TString?)
  {
  }

  lemma AgreesToo(w: World, w1: World, w2: World, n: nat)
    requires Agrees(w, w1, n) && SameRun(w1, w2)
    ensures Agrees(w, w2, n)
  {
  }

  // ---------------------------------------------------------------- and so the value is written differently

  /** A table written alike in two runs has every entry written alike. */
  lemma EntriesSame(w: World, w': World, x: Tab, i: nat)
    requires TabOk(x) && Keyed(w, x) && w.inner == w'.inner && i < |x.entries|
    requires CanonTable(w, x.index, x.result, x.entries) == CanonTable(w', x.index, x.result, x.entries)
    ensures EntryHas(x.index, x.result, x.entries[i])
    ensures CanonEntry(w, x.index, x.result, x.entries[i]) == CanonEntry(w', x.index, x.result, x.entries[i])
  {
    hide CanonEntry, EntryHas, Sorted, ListHas, AlikeList, CoversList;
    var A, B := CanonEntries(w, x.index, x.result, x.entries), CanonEntries(w', x.index, x.result, x.entries);
    assert A[i] in Sorted(w, x.index, A);
    assert A[i] in Sorted(w', x.index, B);
    var j :| 0 <= j < |B| && B[j] == A[i];
    CanonAlikeEntry(w, w', x.index, x.result, x.entries[i], x.entries[j]);
    CanonAlikeEntry(w', w, x.index, x.result, x.entries[j], x.entries[i]);
    assert i == j;
  }

  /** A table that is not firm itself, while the tables inside it are. */
  lemma TableDiffers(w: World, x: Tab) returns (w1: World, w2: World)
    requires TabOk(x) && Keyed(w, x) && Fair(w) && !Fixed(w, x)
    requires forall y :: OccursEntries(y, x.index, x.result, x.entries) ==> Fixed(w, y)
    ensures Twins(w, w1, w2)
    ensures CanonTable(w1, x.index, x.result, x.entries) != CanonTable(w2, x.index, x.result, x.entries)
  {
    hide Gap, CanonList, AlikeList, CoversList, OccursEntries, StoredKey, Before, Keyed, Fair, CanonTable, EntryHas;
    hide ListHas;
    var i :| 0 <= i < |x.entries| && !FirmEntry(w, x.index, x.result, x.entries[i]);
    var j := if i == 0 then 1 else 0;
    EntryParts(x, i);
    EntryParts(x, j);
    w1, w2 := TurnsRound(w, x, i, j);
    KeyedToo(w, w1, x);
    KeyedToo(w, w2, x);
    BothWays(w1, w2, x, i, j);
  }

  lemma BothWays(w1: World, w2: World, x: Tab, i: nat, j: nat)
    requires TabOk(x) && Keyed(w1, x) && Keyed(w2, x) && w1.inner == w2.inner && i < |x.entries| && j < |x.entries|
    requires ListHas(x.index, x.entries[i].index) && ListHas(x.index, x.entries[j].index)
    requires var c, d := CanonList(w1, x.index, x.entries[i].index), CanonList(w1, x.index, x.entries[j].index);
             Before(w1.hash, StoredKey(w1, x.index, c), StoredKey(w1, x.index, d))
    requires var c, d := CanonList(w2, x.index, x.entries[i].index), CanonList(w2, x.index, x.entries[j].index);
             Before(w2.hash, StoredKey(w2, x.index, d), StoredKey(w2, x.index, c))
    ensures CanonTable(w1, x.index, x.result, x.entries) != CanonTable(w2, x.index, x.result, x.entries)
  {
    hide StoredKey, Before, Sorted, ListHas, EntryHas, CanonList, Keyed;
    var A, B := CanonEntries(w1, x.index, x.result, x.entries), CanonEntries(w2, x.index, x.result, x.entries);
    KeyedDiffer(w1, x);
    KeyedDiffer(w2, x);
    SortedOrdered(w1, x.index, A);
    SortedOrdered(w2, x.index, B);
    var r := Sorted(w1, x.index, A);
    if r == Sorted(w2, x.index, B) {
      EntriesSame(w1, w2, x, i);
      EntriesSame(w1, w2, x, j);
      assert A[i] in r && A[j] in r;
      var p :| 0 <= p < |r| && r[p] == A[i];
      var q :| 0 <= q < |r| && r[q] == A[j];
      EntryAsymmetric(w1, x.index, r[p], r[q]);
      EntryAsymmetric(w2, x.index, r[q], r[p]);
    }
  }

  /** A value in which some table is not firm is written differently by two runs that differ only in
      bytes nobody wrote. */
  lemma {:induction false} Differs(w: World, t: Type, v: Val, x: Tab) returns (w1: World, w2: World)
    requires HasType(t, v) && Fair(w) && (forall y :: Occurs(y, t, v) ==> Keyed(w, y)) && Occurs(x, t, v) &&
             !Fixed(w, x)
    ensures Twins(w, w1, w2) && Canon(w1, t, v) != Canon(w2, t, v)
    decreases v, 2
  {
    hide Fair, Keyed, Fixed, Twins, OccursMaybe, OccursEntries, CanonMaybe, CanonTable, Sorted, EntryHas, ElemHas;
    match t {
      case TRecord(fields) =>
        var i :| 0 <= i < |v.fields| && OccursMaybe(x, fields[i].t, v.fields[i]);
        assert forall y :: OccursMaybe(y, fields[i].t, v.fields[i]) ==> Occurs(y, t, v);
        w1, w2 := DiffersMaybe(w, fields[i].t, v.fields[i], x);
        assert CanonFields(w1, fields, v.fields)[i] != CanonFields(w2, fields, v.fields)[i];
      case TVector(elem) =>
        var i :| 0 <= i < |v.elems| && OccursMaybe(x, elem, v.elems[i]);
        assert forall y :: OccursMaybe(y, elem, v.elems[i]) ==> Occurs(y, t, v);
        w1, w2 := DiffersMaybe(w, elem, v.elems[i], x);
        assert CanonElems(w1, elem, v.elems)[i] != CanonElems(w2, elem, v.elems)[i];
      case TList(types) =>
        w1, w2 := DiffersList(w, types, v.vals, x);
      case TTable(index, result) =>
        assert Occurs(Tab(index, result, v.entries), t, v);
        w1, w2 := DiffersTable(w, index, result, v.entries, x);
    }
  }

  lemma {:induction false} DiffersMaybe(w: World, t: Type, o: Maybe, x: Tab) returns (w1: World, w2: World)
    requires ElemHas(t, o) && Fair(w) && (forall y :: OccursMaybe(y, t, o) ==> Keyed(w, y)) && OccursMaybe(x, t, o) &&
             !Fixed(w, x)
    ensures Twins(w, w1, w2) && CanonMaybe(w1, t, o) != CanonMaybe(w2, t, o)
    decreases o, 1
  {
    hide Fair, Keyed, Fixed, Twins, Occurs, Canon, HasType;
    assert forall y :: Occurs(y, t, o.v) ==> OccursMaybe(y, t, o);
    w1, w2 := Differs(w, t, o.v, x);
  }

  lemma {:induction false} DiffersList(w: World, types: seq<Type>, vs: seq<Val>, x: Tab) returns (w1: World, w2: World)
    requires ListHas(types, vs) && Fair(w) && (forall y :: OccursList(y, types, vs) ==> Keyed(w, y))
    requires OccursList(x, types, vs) && !Fixed(w, x)
    ensures Twins(w, w1, w2) && CanonList(w1, types, vs) != CanonList(w2, types, vs)
    decreases vs, 1
  {
    hide Fair, Keyed, Fixed, Twins, Occurs, Canon, HasType;
    var i :| 0 <= i < |vs| && Occurs(x, types[i], vs[i]);
    assert forall y :: Occurs(y, types[i], vs[i]) ==> OccursList(y, types, vs);
    w1, w2 := Differs(w, types[i], vs[i], x);
    assert CanonList(w1, types, vs)[i] != CanonList(w2, types, vs)[i];
  }

  lemma {:induction false} DiffersEntry(w: World, index: seq<Type>, result: Yield, e: Entry, x: Tab)
      returns (w1: World, w2: World)
    requires EntryHas(index, result, e) && Fair(w) && (forall y :: OccursEntry(y, index, result, e) ==> Keyed(w, y))
    requires OccursEntry(x, index, result, e) && !Fixed(w, x)
    ensures Twins(w, w1, w2) && CanonEntry(w1, index, result, e) != CanonEntry(w2, index, result, e)
    decreases e, 2
  {
    hide Fair, Keyed, Fixed, Twins, OccursList, OccursMaybe, CanonList, CanonMaybe, ListHas, HasType;
    if OccursList(x, index, e.index) {
      assert forall y :: OccursList(y, index, e.index) ==> OccursEntry(y, index, result, e);
      w1, w2 := DiffersList(w, index, e.index, x);
    } else {
      assert forall y :: OccursMaybe(y, result.t, e.result) ==> OccursEntry(y, index, result, e);
      w1, w2 := DiffersMaybe(w, result.t, e.result, x);
    }
  }

  lemma {:induction false} DiffersTable(w: World, index: seq<Type>, result: Yield, es: seq<Entry>, x: Tab)
      returns (w1: World, w2: World)
    requires TabOk(Tab(index, result, es)) && Fair(w) && Keyed(w, Tab(index, result, es))
    requires forall y :: OccursEntries(y, index, result, es) ==> Keyed(w, y)
    requires (x == Tab(index, result, es) || OccursEntries(x, index, result, es)) && !Fixed(w, x)
    ensures Twins(w, w1, w2) && CanonTable(w1, index, result, es) != CanonTable(w2, index, result, es)
    decreases es, 3
  {
    hide Fair, Keyed, Fixed, OccursEntry, CanonEntry, CanonTable, EntryHas;
    var self := Tab(index, result, es);
    if y :| OccursEntries(y, index, result, es) && !Fixed(w, y) {
      var i :| 0 <= i < |es| && OccursEntry(y, index, result, es[i]);
      assert forall z :: OccursEntry(z, index, result, es[i]) ==> OccursEntries(z, index, result, es);
      w1, w2 := DiffersEntry(w, index, result, es[i], y);
      KeyedToo(w, w1, self);
      if CanonTable(w1, index, result, es) == CanonTable(w2, index, result, es) {
        EntriesSame(w1, w2, self, i);
      }
    } else {
      w1, w2 := TableDiffers(w, self);
    }
  }

  // ---------------------------------------------------------------- and so the key differs

  lemma UsableToo(w: World, w': World, types: seq<Type>, vs: seq<Val>)
    requires ListHas(types, vs) && Usable(w, types, vs) && w.inner == w'.inner
    ensures Usable(w', types, vs)
  {
    hide ListHas, OccursList, CoversList, Keyed;
    forall x | OccursList(x, types, vs) ensures Keyed(w', x) {
      KeyedToo(w, w', x);
    }
  }

  /** Otherwise two runs that differ in bytes nobody wrote give one value two keys. */
  lemma LooseKey(w: World, types: seq<Type>, a: seq<Val>) returns (w1: World, w2: World)
    requires ListHas(types, a) && Usable(w, types, a) && Fair(w) && !FixedKey(w, types, a)
    ensures SameRun(w1, w2) && w1.inner == w.inner && Fair(w1) && Fair(w2) && AlikeList(a, a)
    ensures StoredKey(w1, types, CanonList(w1, types, a)) != StoredKey(w2, types, CanonList(w2, types, a))
  {
    hide StoredKey, CanonList, AlikeList, ListHas, CoversList, Fair, Keyed, Fixed, OccursList, Gap;
    var c := CanonList(w, types, a);
    if Gap(types, c) > 0 {
      w1 := w;
      w2 := LooseEnd(w, types, c);
    } else {
      var x :| OccursList(x, types, a) && !Fixed(w, x);
      w1, w2 := DiffersList(w, types, a, x);
    }
    if StoredKey(w1, types, CanonList(w1, types, a)) == StoredKey(w2, types, CanonList(w2, types, a)) {
      KeysTell(w1, w2, types, a, a);
    }
    KeysTell(w1, w1, types, a, a);
  }

  /** The same run with other bytes left at the end of one key. */
  lemma LooseEnd(w: World, types: seq<Type>, c: seq<Val>) returns (w': World)
    requires ListHas(types, c) && Fair(w) && Gap(types, c) > 0
    ensures SameRun(w, w') && Fair(w') && StoredKey(w, types, c) != StoredKey(w', types, c)
  {
    hide StoredKey, Gap, ListHas, KeyBytes;
    var tail, k := w.tail(types, c), KeyBytes(w.inner(types), types, c);
    assert |tail| == Gap(types, c);
    w' := Left(w, types, c, Other(tail));
    LeftFair(w, types, c, Other(tail));
    StoredIs(w, types, c);
    StoredIs(w', types, c);
    assert (k + tail)[|k|..] == tail && (k + Other(tail))[|k|..] == Other(tail);
  }

  // ---------------------------------------------------------------- a set written in two ways

  ghost function Zeroed(hash: seq<Byte> -> nat, inner: seq<Type> -> seq<nat>): (w: World)
    ensures w.inner == inner && Fair(w)
  {
    hide Gap, ListHas;
    var tail := (types: seq<Type>, vs: seq<Val>) => if ListHas(types, vs) then Zeros(Gap(types, vs)) else [];
    World(hash, inner, tail)
  }

  /** The set of vectors { [hole], [hole, hole] } of counts. */
  ghost function Holes(): Tab {
    Tab([TVector(TCount)], NoYield, [Entry([Vector([Absent])], Absent), Entry([Vector([Absent, Absent])], Absent)])
  }

  lemma HolesHave(t: Type, os: seq<Maybe>)
    requires |os| < TWO32 && forall i :: 0 <= i < |os| ==> os[i] == Absent
    ensures HasType(TVector(t), Vector(os)) && ListHas([TVector(t)], [Vector(os)])
    ensures forall funcs :: CoversList(funcs, [Vector(os)])
    ensures forall y :: !OccursList(y, [TVector(t)], [Vector(os)])
  {
    assert forall i :: 0 <= i < |os| ==> ElemHas(t, os[i]);
    forall funcs ensures CoversList(funcs, [Vector(os)]) {
      assert Covers(funcs, Vector(os));
    }
    forall y ensures !OccursList(y, [TVector(t)], [Vector(os)]) {
      assert !OccursElems(y, t, os);
      assert Occurs(y, TVector(t), Vector(os)) == OccursElems(y, t, Vector(os).elems);
    }
  }

  lemma HolesCanon(w: World, t: Type, os: seq<Maybe>)
    requires (forall i :: 0 <= i < |os| ==> os[i] == Absent) && ListHas([TVector(t)], [Vector(os)])
    ensures CanonList(w, [TVector(t)], [Vector(os)]) == [Vector(os)]
  {
    assert HasType([TVector(t)][0], [Vector(os)][0]);
    assert CanonElems(w, t, os) == os;
  }

  lemma HolesDiffer()
    ensures !AlikeList([Vector([Absent])], [Vector([Absent, Absent])])
  {
    assert !Alike([Vector([Absent])][0], [Vector([Absent, Absent])][0]);
  }

  lemma HolesOk(w: World)
    requires w.inner([TVector(TCount)]) == []
    ensures TabOk(Holes()) && Keyed(w, Holes()) && !Fixed(w, Holes())
    ensures forall y :: !OccursEntries(y, Holes().index, Holes().result, Holes().entries)
  {
    hide Gap, CanonList, ListHas, CoversList, AlikeList, OccursList, HasType;
    var x := Holes();
    HolesHave(TCount, [Absent]);
    HolesHave(TCount, [Absent, Absent]);
    HolesCanon(w, TCount, [Absent]);
    VectorGap(TCount, [Absent]);
    HolesDiffer();
    assert !FirmEntry(w, x.index, x.result, x.entries[0]);
  }

  /** Two runs, alike but for bytes nobody wrote, list the entries of one set in different orders. */
  lemma SetWrittenTwoWays() returns (w1: World, w2: World)
    ensures SameRun(w1, w2) && Fair(w1) && Fair(w2) && TabOk(Holes())
    ensures CanonTable(w1, Holes().index, Holes().result, Holes().entries) !=
            CanonTable(w2, Holes().index, Holes().result, Holes().entries)
  {
    hide Holes, Fixed, Keyed, TabOk, OccursEntries;
    var w := Zeroed(_ => 0, _ => []);
    HolesOk(w);
    w1, w2 := TableDiffers(w, Holes());
  }
}
