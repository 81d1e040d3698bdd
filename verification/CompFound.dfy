/** Which yields a pass finds: when it finds them all, and a pass that misses one otherwise. */
module CompFound {
  import opened Options
  import opened CompVals
  import opened CompOrder
  import opened CompGap
  import opened CompCanon
  import opened CompWhole
  import opened CompAgain
  import opened CompPass

  // ---------------------------------------------------------------- keys by which yields are looked up

  /** If the table has a yield, no stored key of it has unwritten bytes. */
  ghost predicate YieldFirm(w: World, x: Tab) {
    TabOk(x) && x.result.YieldOf? ==>
      forall i :: 0 <= i < |x.entries| ==> FirmEntry(w, x.index, x.result, x.entries[i])
  }

  ghost function YieldFirms(w: World): Tab -> bool { x => YieldFirm(w, x) }

  /** If the table has a yield, no key of it has unwritten bytes, nor do they decide an order inside one. */
  ghost predicate YieldFixed(w: World, x: Tab) {
    TabOk(x) && x.result.YieldOf? ==> forall i :: 0 <= i < |x.entries| ==>
        EntryHas(x.index, x.result, x.entries[i]) && FixedKey(w, x.index, x.entries[i].index)
  }

  ghost function YieldsFixed(w: World): Tab -> bool { x => YieldFixed(w, x) }

  lemma FixedKeyIs(w: World, types: seq<Type>, vs: seq<Val>)
    requires ListHas(types, vs)
    ensures FixedKey(w, types, vs) <==> Gap(types, CanonList(w, types, vs)) == 0 && AllList(Fixes(w), types, vs)
  {
    hide OccursList, ListHas, Gap, CanonList, Fixed;
    assert forall x :: OccursList(x, types, vs) ==> (Fixes(w)(x) <==> Fixed(w, x));
  }

  lemma FirmYieldsFixed(w: World, types: seq<Type>, vs: seq<Val>)
    requires ListHas(types, vs) && AllList(YieldFirms(w), types, vs) && AllList(Deeper(Fixes(w)), types, vs)
    ensures AllList(YieldsFixed(w), types, vs)
  {
    hide OccursList, ListHas, Gap, CanonList, Fixes, FixedKey, AllList, HasType;
    AllListIs(YieldFirms(w), types, vs);
    AllListIs(Deeper(Fixes(w)), types, vs);
    forall x | OccursList(x, types, vs) ensures YieldsFixed(w)(x) {
      assert YieldFirms(w)(x) && Deeper(Fixes(w))(x);
      if TabOk(x) && x.result.YieldOf? {
        forall i | 0 <= i < |x.entries|
          ensures EntryHas(x.index, x.result, x.entries[i]) && FixedKey(w, x.index, x.entries[i].index)
        {
          assert FirmEntry(w, x.index, x.result, x.entries[i]);
          FixedKeyIs(w, x.index, x.entries[i].index);
        }
      }
    }
    AllListIs(YieldsFixed(w), types, vs);
  }

  lemma AllListIs(P: Tab -> bool, types: seq<Type>, vs: seq<Val>)
    requires ListHas(types, vs)
    ensures AllList(P, types, vs) <==> forall x :: OccursList(x, types, vs) ==> P(x)
  {
    hide OccursList, ListHas;
  }

  /** The index of an entry of a table's written form is the written form of an index. */
  lemma WrittenIndex(w: World, x: Tab, k: nat) returns (i: nat)
    requires TabOk(x) && k < |CanonTab(w, x).entries|
    ensures i < |x.entries| && EntryHas(x.index, x.result, x.entries[i])
    ensures CanonTab(w, x).entries[k].index == CanonList(w, x.index, x.entries[i].index)
  {
    hide CanonList, ListHas, HasType, Sorted;
    var all, cs := CanonEntries(w, x.index, x.result, x.entries), CanonTab(w, x).entries;
    assert cs[k] in all;
    i :| 0 <= i < |all| && all[i] == cs[k];
    assert all[i] == CanonEntry(w, x.index, x.result, x.entries[i]);
  }

  lemma IndexWritten(w: World, x: Tab, i: nat) returns (k: nat)
    requires TabOk(x) && i < |x.entries|
    ensures k < |CanonTab(w, x).entries| && EntryHas(x.index, x.result, x.entries[i])
    ensures CanonTab(w, x).entries[k].index == CanonList(w, x.index, x.entries[i].index)
  {
    hide CanonList, ListHas, HasType, Sorted;
    var all, cs := CanonEntries(w, x.index, x.result, x.entries), CanonTab(w, x).entries;
    assert all[i] in cs;
    assert all[i] == CanonEntry(w, x.index, x.result, x.entries[i]);
    k :| 0 <= k < |cs| && cs[k] == all[i];
  }

  lemma YieldFixedAgain(w: World, w': World, x: Tab)
    requires TabOk(x) && SameRun(w, w') && Deeper(Keys(w))(x) && YieldFixed(w, x)
    ensures TabOk(CanonTab(w, x)) && YieldFixed(w', CanonTab(w, x))
  {
    hide CanonList, ListHas, HasType, Sorted, AllList, Keys, Fixes, Gap, FixedKey, CanonTab;
    NoGapsIs(w, x);
    var y := CanonTab(w, x);
    assert y.index == x.index && y.result == x.result by { CanonTabIs(w, x); }
    if x.result.YieldOf? {
      forall k | 0 <= k < |y.entries|
        ensures EntryHas(y.index, y.result, y.entries[k]) && FixedKey(w', y.index, y.entries[k].index)
      {
        var i := WrittenIndex(w, x, k);
        var vs := x.entries[i].index;
        FixedKeyIs(w, x.index, vs);
        FixedAgain(w, w', x.index, vs);
        FixedKeyIs(w', x.index, CanonList(w, x.index, vs));
      }
    }
  }

  lemma CanonTabIs(w: World, x: Tab)
    requires TabOk(x)
    ensures CanonTab(w, x).index == x.index && CanonTab(w, x).result == x.result
  {
  }

  /** Then so it is in the written form, in any run like this one. */
  lemma YieldsFixedAgain(w: World, w': World, types: seq<Type>, vs: seq<Val>)
    requires ListHas(types, vs) && SameRun(w, w')
    requires AllList(Keys(w), types, vs) && AllList(YieldsFixed(w), types, vs)
    ensures AllList(YieldsFixed(w'), types, CanonList(w, types, vs))
  {
    hide CanonList, ListHas, OccursList, AllList, YieldFixed, CanonTab, Keys, Deeper;
    var P: Tab -> bool := x => TabOk(x) ==> YieldFixed(w', CanonTab(w, x));
    DeepensList(Keys(w), types, vs);
    AllListIs(Deeper(Keys(w)), types, vs);
    AllListIs(YieldsFixed(w), types, vs);
    forall x | OccursList(x, types, vs) ensures P(x) {
      assert Deeper(Keys(w))(x) && YieldsFixed(w)(x);
      if TabOk(x) {
        YieldFixedAgain(w, w', x);
      }
    }
    AllListIs(P, types, vs);
    assert Turns(w, P, YieldsFixed(w'));
    AllCanonList(w, P, YieldsFixed(w'), types, vs);
  }

  // ---------------------------------------------------------------- passes that find every yield

  /** A key without unwritten bytes, nor order they decide, finds its own entry. */
  lemma FixedHit(g: Pass, d: nat, t: Type, es: seq<Entry>, i: nat)
    requires t.TTable? && TabOk(Tab(t.index, t.result, es)) && Lined(g) && i < |es|
    requires Keyed(g(d), Tab(t.index, t.result, es)) && ListHas(t.index, es[i].index)
    requires AllList(Keys(g(d)), t.index, es[i].index) && FixedKey(g(d), t.index, es[i].index)
    ensures Hit(g, d, t, es, i) == Some(i)
  {
    hide CanonList, FormList, ListHas, StoredKey, EntryHas, Lookup, Keyed, Gap, Slack, AllList, Sure, Keys, Fixes;
    hide FixedKey;
    var w, w1, vs := g(d), g(d + 1), es[i].index;
    assert SameRun(w, w1);
    var c := CanonList(w, t.index, vs);
    FixedKeyIs(w, t.index, vs);
    SureIs(g, d, t.index, vs);
    FormAnew(g, d, t.index, vs);
    OwnHit(g, d, t, es, i);
    assert Probe(g, d, t.index, vs) == StoredKey(w1, t.index, c);
    SlackIsGap(w.inner(t.index), t.index, c);
    TightKey(w, w1, t.index, c);
  }

  /** Every pass finds every yield, if the keys by which they are looked up are fixed. */
  lemma {:induction false} Finds(g: Pass, d: nat, t: Type, v: Val)
    requires HasType(t, v) && Lined(g) && All(Keys(g(d)), t, v) && All(YieldsFixed(g(d)), t, v)
    ensures Gets(g, d, t, v)
    decreases t, 1
  {
    hide All, AllMaybe, AllList, AllEntry, EntryHas, ElemHas, ListHas, Keyed, YieldFixed;
    hide GetsMaybe, GetsEntries, GetsField;
    match t {
      case TRecord(fields) =>
        AllRecord(Keys(g(d)), fields, v);
        AllRecord(YieldsFixed(g(d)), fields, v);
        forall i | 0 <= i < |fields| ensures GetsField(g, d, fields[i], v.fields[i]) {
          FindsField(g, d, fields[i], v.fields[i]);
        }
      case TVector(elem) =>
        AllVector(Keys(g(d)), elem, v);
        AllVector(YieldsFixed(g(d)), elem, v);
        forall i | 0 <= i < |v.elems| ensures GetsMaybe(g, d, elem, v.elems[i]) {
          FindsMaybe(g, d, elem, v.elems[i]);
        }
      case TList(types) =>
        AllListed(Keys(g(d)), types, v);
        AllListed(YieldsFixed(g(d)), types, v);
        FindsList(g, d, types, v.vals);
      case TTable(index, result) =>
        AllTable(Keys(g(d)), index, result, v);
        AllTable(YieldsFixed(g(d)), index, result, v);
        FindsTable(g, d, t, v.entries);
      case _ =>
    }
  }

  lemma {:induction false} FindsMaybe(g: Pass, d: nat, t: Type, o: Maybe)
    requires ElemHas(t, o) && Lined(g) && AllMaybe(Keys(g(d)), t, o) && AllMaybe(YieldsFixed(g(d)), t, o)
    ensures GetsMaybe(g, d, t, o)
    decreases t, 2
  {
    hide All, AllMaybe, Gets, HasType, Keys, YieldsFixed;
    AllIn(Keys(g(d)), t, o);
    AllIn(YieldsFixed(g(d)), t, o);
    if o.Just? {
      Finds(g, d, t, o.v);
    }
  }

  lemma {:induction false} FindsField(g: Pass, d: nat, f: Field, o: Maybe)
    requires ElemHas(f.t, o) && Lined(g) && AllMaybe(Keys(g(d)), f.t, o) && AllMaybe(YieldsFixed(g(d)), f.t, o)
    ensures GetsField(g, d, f, o)
    decreases f, 0
  {
    hide AllMaybe, GetsMaybe, ElemHas, Keys, YieldsFixed;
    FindsMaybe(g, d, f.t, o);
  }

  lemma {:induction false} FindsList(g: Pass, d: nat, types: seq<Type>, vs: seq<Val>)
    requires ListHas(types, vs) && Lined(g) && AllList(Keys(g(d)), types, vs) && AllList(YieldsFixed(g(d)), types, vs)
    ensures GetsList(g, d, types, vs)
    decreases types, 0
  {
    hide All, AllList, Gets, HasType, Keys, YieldsFixed;
    AllVals(Keys(g(d)), types, vs);
    AllVals(YieldsFixed(g(d)), types, vs);
    forall i | 0 <= i < |vs| ensures Gets(g, d, types[i], vs[i]) {
      Finds(g, d, types[i], vs[i]);
    }
  }

  lemma {:induction false} FindsTable(g: Pass, d: nat, t: Type, es: seq<Entry>)
    requires t.TTable? && TabOk(Tab(t.index, t.result, es)) && Lined(g)
    requires Keyed(g(d), Tab(t.index, t.result, es)) && YieldFixed(g(d), Tab(t.index, t.result, es))
    requires forall i :: 0 <= i < |es| ==>
      AllEntry(Keys(g(d)), t.index, t.result, es[i]) && AllEntry(YieldsFixed(g(d)), t.index, t.result, es[i])
    ensures GetsEntries(g, d, t, es)
    decreases t, 0, 1
  {
    hide AllEntry, ListHas, HasType, Keyed, GetsEntry, FixedKey, Keys, YieldsFixed;
    forall i | 0 <= i < |es| ensures GetsEntry(g, d, t, es, i) {
      assert AllEntry(Keys(g(d)), t.index, t.result, es[i]);
      assert EntryHas(t.index, t.result, es[i]);
      FindsEntry(g, d, t, es, i);
    }
  }

  lemma {:induction false} FindsEntry(g: Pass, d: nat, t: Type, es: seq<Entry>, i: nat)
    requires t.TTable? && TabOk(Tab(t.index, t.result, es)) && Lined(g) && i < |es|
    requires Keyed(g(d), Tab(t.index, t.result, es)) && EntryHas(t.index, t.result, es[i])
    requires t.result.YieldOf? ==> FixedKey(g(d), t.index, es[i].index)
    requires AllEntry(Keys(g(d)), t.index, t.result, es[i]) && AllEntry(YieldsFixed(g(d)), t.index, t.result, es[i])
    ensures GetsEntry(g, d, t, es, i)
    decreases t, 0, 0
  {
    hide AllEntry, AllList, AllMaybe, CanonList, ListHas, HasType, Keyed, Hit, FixedKey, GetsList, GetsMaybe, Keys;
    hide YieldsFixed;
    var e, index := es[i], t.index;
    AllParts(Keys(g(d)), index, t.result, e);
    AllParts(YieldsFixed(g(d)), index, t.result, e);
    assert SameRun(g(d), g(d + 1));
    var c := CanonList(g(d), index, e.index);
    KeyedAgainList(g(d), index, e.index);
    KeysTooList(g(d), g(d + 1), index, c);
    YieldsFixedAgain(g(d), g(d + 1), index, e.index);
    FindsList(g, d + 1, index, c);
    if t.result.YieldOf? {
      FixedHit(g, d, t, es, i);
      FindsMaybe(g, d, t.result.t, e.result);
    }
  }

  // ---------------------------------------------------------------- passes that miss one

  /** The unwritten bytes of one run up to level k, and those of another from there on. */
  ghost function Turning(w: World, w': World, k: nat): Pass { (d: nat) => if d <= k then w else w' }

  /** The key of an index in written form is stored in one run as it is made in the other. */
  ghost predicate SameKey(w: World, w': World, index: seq<Type>, c: seq<Val>)
    requires ListHas(index, c)
  {
    StoredKey(w, index, c) == StoredKey(w', index, CanonList(w', index, c))
  }

  /** So it is of all indices of a table in written form, if it has a yield. */
  ghost predicate Tells(w: World, w': World, y: Tab) {
    TabOk(y) && y.result.YieldOf? ==> forall k :: 0 <= k < |y.entries| ==>
        EntryHas(y.index, y.result, y.entries[k]) && SameKey(w, w', y.index, y.entries[k].index)
  }

  ghost function Told(w: World, w': World): Tab -> bool { y => Tells(w, w', y) }

  ghost function Meets(w: World, w': World): Tab -> bool { x => TabOk(x) ==> Tells(w, w', CanonTab(w, x)) }

  lemma MeetsIs(w: World, w': World, x: Tab)
    requires TabOk(x)
    ensures Meets(w, w')(x) <==> (x.result.YieldOf? ==> forall i :: 0 <= i < |x.entries| ==>
              && EntryHas(x.index, x.result, x.entries[i])
              && SameKey(w, w', x.index, CanonList(w, x.index, x.entries[i].index)))
  {
    hide CanonList, ListHas, HasType, CanonTab, SameKey;
    NoGapsIs(w, x);
    CanonTabIs(w, x);
    var y := CanonTab(w, x);
    assert Meets(w, w')(x) <==> Tells(w, w', y);
    if Tells(w, w', y) && x.result.YieldOf? {
      forall i | 0 <= i < |x.entries|
        ensures EntryHas(x.index, x.result, x.entries[i])
        ensures SameKey(w, w', x.index, CanonList(w, x.index, x.entries[i].index))
      {
        var k := IndexWritten(w, x, i);
        assert SameKey(w, w', y.index, y.entries[k].index);
      }
    }
    if !Tells(w, w', y) {
      var k :| 0 <= k < |y.entries| &&
               !(EntryHas(y.index, y.result, y.entries[k]) && SameKey(w, w', y.index, y.entries[k].index));
      var i := WrittenIndex(w, x, k);
    }
  }

  lemma MeetsAgain(w: World, w': World, types: seq<Type>, vs: seq<Val>)
    requires ListHas(types, vs) && AllList(Keys(w), types, vs)
    ensures var cs := CanonList(w, types, vs);
            AllList(Keys(w), types, cs) && (AllList(Meets(w, w'), types, vs) <==> AllList(Meets(w, w'), types, cs))
  {
    hide CanonList, ListHas, AllList, CanonTab, Keys, Tells;
    KeyedAgainList(w, types, vs);
    CanonAgain(w, w, types, vs);
    assert Turns(w, Meets(w, w'), Told(w, w'));
    AllCanonList(w, Meets(w, w'), Told(w, w'), types, vs);
    AllCanonList(w, Meets(w, w'), Told(w, w'), types, CanonList(w, types, vs));
  }

  lemma TurningLined(w: World, w': World, k: nat)
    requires SameRun(w, w')
    ensures Lined(Turning(w, w', k)) && Still(Turning(w, w', k), k + 1)
  {
  }

  /** If some yield is looked up by another key than it is stored under, some pass does not find it. */
  lemma {:induction false} Misses(w: World, w': World, d: nat, t: Type, v: Val) returns (k: nat)
    requires HasType(t, v) && SameRun(w, w') && All(Keys(w), t, v) && !All(Meets(w, w'), t, v)
    ensures k >= d && !Gets(Turning(w, w', k), d, t, v)
    decreases t, 1
  {
    hide All, AllMaybe, AllList, AllEntry, EntryHas, ElemHas, ListHas, Keyed, Meets, Gets, GetsMaybe, GetsEntries;
    hide GetsField, Turning;
    match t {
      case TRecord(fields) =>
        AllRecord(Keys(w), fields, v);
        AllRecord(Meets(w, w'), fields, v);
        var i :| 0 <= i < |fields| && !AllMaybe(Meets(w, w'), fields[i].t, v.fields[i]);
        k := MissesField(w, w', d, fields[i], v.fields[i]);
      case TVector(elem) =>
        AllVector(Keys(w), elem, v);
        AllVector(Meets(w, w'), elem, v);
        var i :| 0 <= i < |v.elems| && !AllMaybe(Meets(w, w'), elem, v.elems[i]);
        k := MissesMaybe(w, w', d, elem, v.elems[i]);
      case TList(types) =>
        AllListed(Keys(w), types, v);
        AllListed(Meets(w, w'), types, v);
        k := MissesList(w, w', d, types, v.vals);
      case TTable(index, result) =>
        AllTable(Keys(w), index, result, v);
        AllTable(Meets(w, w'), index, result, v);
        k := MissesTable(w, w', d, t, v.entries);
      case _ =>
        AllScalar(Meets(w, w'), t, v);
    }
    GetsTurn(Turning(w, w', k), d, t, v);
  }

  lemma {:induction false} MissesMaybe(w: World, w': World, d: nat, t: Type, o: Maybe) returns (k: nat)
    requires ElemHas(t, o) && SameRun(w, w') && AllMaybe(Keys(w), t, o) && !AllMaybe(Meets(w, w'), t, o)
    ensures k >= d && !GetsMaybe(Turning(w, w', k), d, t, o)
    decreases t, 2
  {
    hide All, AllMaybe, Gets, HasType, Keys, Meets, Turning;
    AllIn(Keys(w), t, o);
    AllIn(Meets(w, w'), t, o);
    k := Misses(w, w', d, t, o.v);
  }

  lemma {:induction false} MissesField(w: World, w': World, d: nat, f: Field, o: Maybe) returns (k: nat)
    requires ElemHas(f.t, o) && SameRun(w, w') && AllMaybe(Keys(w), f.t, o) && !AllMaybe(Meets(w, w'), f.t, o)
    ensures k >= d && !GetsField(Turning(w, w', k), d, f, o)
    decreases f, 0
  {
    hide AllMaybe, GetsMaybe, ElemHas, Keys, Meets, Turning;
    k := MissesMaybe(w, w', d, f.t, o);
  }

  lemma {:induction false} MissesList(w: World, w': World, d: nat, types: seq<Type>, vs: seq<Val>) returns (k: nat)
    requires ListHas(types, vs) && SameRun(w, w') && AllList(Keys(w), types, vs) && !AllList(Meets(w, w'), types, vs)
    ensures k >= d && !GetsList(Turning(w, w', k), d, types, vs)
    decreases types, 0
  {
    hide All, AllList, Gets, HasType, Keys, Meets, Turning;
    AllVals(Keys(w), types, vs);
    AllVals(Meets(w, w'), types, vs);
    var i :| 0 <= i < |vs| && !All(Meets(w, w'), types[i], vs[i]);
    k := Misses(w, w', d, types[i], vs[i]);
  }

  lemma {:induction false} MissesTable(w: World, w': World, d: nat, t: Type, es: seq<Entry>) returns (k: nat)
    requires t.TTable? && TabOk(Tab(t.index, t.result, es)) && SameRun(w, w') && Keyed(w, Tab(t.index, t.result, es))
    requires forall i :: 0 <= i < |es| ==> AllEntry(Keys(w), t.index, t.result, es[i])
    requires !Meets(w, w')(Tab(t.index, t.result, es)) ||
             exists i :: 0 <= i < |es| && !AllEntry(Meets(w, w'), t.index, t.result, es[i])
    ensures k >= d && !GetsEntries(Turning(w, w', k), d, t, es)
    decreases t, 0, 1
  {
    hide AllEntry, ListHas, HasType, Keyed, GetsEntry, Keys, Meets, SameKey, CanonList, Turning;
    var x := Tab(t.index, t.result, es);
    if !Meets(w, w')(x) {
      MeetsIs(w, w', x);
      var i :| 0 <= i < |es| && !(&& EntryHas(x.index, x.result, x.entries[i])
                                   && SameKey(w, w', x.index, CanonList(w, x.index, x.entries[i].index)));
      assert EntryHas(x.index, x.result, x.entries[i]);
      k := d;
      MissesOwn(w, w', d, t, es, i);
      assert !GetsEntry(Turning(w, w', k), d, t, es, i);
    } else {
      var i :| 0 <= i < |es| && !AllEntry(Meets(w, w'), t.index, t.result, es[i]);
      k := MissesEntry(w, w', d, t, es, i);
      assert !GetsEntry(Turning(w, w', k), d, t, es, i);
    }
  }

  /** With other unwritten bytes in the key made for it, the lookup does not find the entry. */
  lemma MissesOwn(w: World, w': World, d: nat, t: Type, es: seq<Entry>, i: nat)
    requires t.TTable? && TabOk(Tab(t.index, t.result, es)) && SameRun(w, w') && Keyed(w, Tab(t.index, t.result, es))
    requires i < |es| && t.result.YieldOf? && EntryHas(t.index, t.result, es[i])
    requires forall i :: 0 <= i < |es| ==> AllEntry(Keys(w), t.index, t.result, es[i])
    requires !SameKey(w, w', t.index, CanonList(w, t.index, es[i].index))
    ensures !GetsEntry(Turning(w, w', d), d, t, es, i)
  {
    hide AllEntry, AllList, ListHas, HasType, Keyed, Keys, CanonList, FormList, StoredKey, GetsList, GetsMaybe, Lookup;
    hide Sure, Still, Lined;
    var g, index, vs := Turning(w, w', d), t.index, es[i].index;
    assert g(d) == w && g(d + 1) == w';
    TurningLined(w, w', d);
    var c := CanonList(w, index, vs);
    AllParts(Keys(w), index, t.result, es[i]);
    KeyedAgainList(w, index, vs);
    KeysTooList(w, w', index, c);
    SureIs(g, d + 1, index, c);
    FormIsCanonList(g, d + 1, index, c);
    HitsOwn(g, d, t, es, i);
  }

  lemma {:induction false} MissesEntry(w: World, w': World, d: nat, t: Type, es: seq<Entry>, i: nat) returns (k: nat)
    requires t.TTable? && TabOk(Tab(t.index, t.result, es)) && SameRun(w, w') && Keyed(w, Tab(t.index, t.result, es))
    requires i < |es| && EntryHas(t.index, t.result, es[i]) && !AllEntry(Meets(w, w'), t.index, t.result, es[i])
    requires forall i :: 0 <= i < |es| ==> AllEntry(Keys(w), t.index, t.result, es[i])
    ensures k >= d && !GetsEntry(Turning(w, w', k), d, t, es, i)
    decreases t, 0, 0
  {
    hide AllEntry, AllList, AllMaybe, ListHas, HasType, Keyed, Keys, Meets, CanonList, GetsList, GetsMaybe, Hit, Lined;
    var e, index := es[i], t.index;
    AllParts(Keys(w), index, t.result, e);
    AllParts(Meets(w, w'), index, t.result, e);
    if !AllList(Meets(w, w'), index, e.index) {
      MeetsAgain(w, w', index, e.index);
      k := MissesList(w, w', d + 1, index, CanonList(w, index, e.index));
    } else {
      k := MissesMaybe(w, w', d, t.result.t, e.result);
      TurningLined(w, w', k);
      HitsOwn(Turning(w, w', k), d, t, es, i);
    }
  }
}
