/** The tables inside a value, and what holds of them in the form the value is written in: writing that
    form again changes nothing. */
module CompAgain {
  import opened CompVals
  import opened CompOrder
  import opened CompGap
  import opened CompCanon
  import opened CompWhole

  // ---------------------------------------------------------------- all tables inside a value

  ghost predicate All(P: Tab -> bool, t: Type, v: Val)
    requires HasType(t, v)
  {
    forall x :: Occurs(x, t, v) ==> P(x)
  }

  ghost predicate AllMaybe(P: Tab -> bool, t: Type, o: Maybe)
    requires ElemHas(t, o)
  {
    forall x :: OccursMaybe(x, t, o) ==> P(x)
  }

  ghost predicate AllList(P: Tab -> bool, types: seq<Type>, vs: seq<Val>)
    requires ListHas(types, vs)
  {
    forall x :: OccursList(x, types, vs) ==> P(x)
  }

  ghost predicate AllEntry(P: Tab -> bool, index: seq<Type>, result: Yield, e: Entry)
    requires EntryHas(index, result, e)
  {
    forall x :: OccursEntry(x, index, result, e) ==> P(x)
  }

  lemma AllScalar(P: Tab -> bool, t: Type, v: Val)
    requires HasType(t, v) && !t.TRecord? && !t.TVector? && !t.TList? && !t.TTable?
    ensures All(P, t, v)
  {
  }

  lemma AllRecord(P: Tab -> bool, fields: seq<Field>, v: Val)
    requires HasType(TRecord(fields), v) && FieldsHave(fields, v.fields)
    ensures All(P, TRecord(fields), v) <==> forall i :: 0 <= i < |fields| ==> AllMaybe(P, fields[i].t, v.fields[i])
  {
    hide OccursMaybe, ElemHas;
    assert forall x :: Occurs(x, TRecord(fields), v) <==> OccursFields(x, fields, v.fields);
    if All(P, TRecord(fields), v) {
      forall i | 0 <= i < |fields| ensures AllMaybe(P, fields[i].t, v.fields[i]) {
        assert forall x :: OccursMaybe(x, fields[i].t, v.fields[i]) ==> OccursFields(x, fields, v.fields);
      }
    }
  }

  lemma AllVector(P: Tab -> bool, elem: Type, v: Val)
    requires HasType(TVector(elem), v)
    ensures All(P, TVector(elem), v) <==> forall i :: 0 <= i < |v.elems| ==> AllMaybe(P, elem, v.elems[i])
  {
    hide OccursMaybe, ElemHas;
    assert forall x :: Occurs(x, TVector(elem), v) <==> OccursElems(x, elem, v.elems);
    if All(P, TVector(elem), v) {
      forall i | 0 <= i < |v.elems| ensures AllMaybe(P, elem, v.elems[i]) {
        assert forall x :: OccursMaybe(x, elem, v.elems[i]) ==> OccursElems(x, elem, v.elems);
      }
    }
  }

  lemma AllListed(P: Tab -> bool, types: seq<Type>, v: Val)
    requires HasType(TList(types), v)
    ensures All(P, TList(types), v) <==> AllList(P, types, v.vals)
  {
    hide OccursList, ListHas;
    assert forall x :: Occurs(x, TList(types), v) <==> OccursList(x, types, v.vals);
  }

  lemma AllVals(P: Tab -> bool, types: seq<Type>, vs: seq<Val>)
    requires ListHas(types, vs)
    ensures AllList(P, types, vs) <==> forall i :: 0 <= i < |vs| ==> All(P, types[i], vs[i])
  {
    hide Occurs, HasType;
    if AllList(P, types, vs) {
      forall i | 0 <= i < |vs| ensures All(P, types[i], vs[i]) {
        assert forall x :: Occurs(x, types[i], vs[i]) ==> OccursList(x, types, vs);
      }
    }
  }

  lemma AllTable(P: Tab -> bool, index: seq<Type>, result: Yield, v: Val)
    requires HasType(TTable(index, result), v)
    ensures All(P, TTable(index, result), v) <==>
            && P(Tab(index, result, v.entries))
            && forall i :: 0 <= i < |v.entries| ==> AllEntry(P, index, result, v.entries[i])
  {
    hide OccursEntry, EntryHas;
    var t, x := TTable(index, result), Tab(index, result, v.entries);
    assert forall y :: Occurs(y, t, v) <==> y == x || OccursEntries(y, index, result, v.entries);
    if All(P, t, v) {
      assert Occurs(x, t, v);
      forall i | 0 <= i < |v.entries| ensures AllEntry(P, index, result, v.entries[i]) {
        assert forall y :: OccursEntry(y, index, result, v.entries[i]) ==> OccursEntries(y, index, result, v.entries);
      }
    }
  }

  lemma AllParts(P: Tab -> bool, index: seq<Type>, result: Yield, e: Entry)
    requires EntryHas(index, result, e)
    ensures AllEntry(P, index, result, e) <==>
            AllList(P, index, e.index) && (result.YieldOf? ==> AllMaybe(P, result.t, e.result))
  {
    hide OccursList, OccursMaybe, ListHas, HasType;
    assert forall x :: OccursEntry(x, index, result, e) <==>
                       OccursList(x, index, e.index) || (result.YieldOf? && OccursMaybe(x, result.t, e.result));
  }

  lemma AllIn(P: Tab -> bool, t: Type, o: Maybe)
    requires ElemHas(t, o)
    ensures AllMaybe(P, t, o) <==> (o.Just? ==> All(P, t, o.v))
  {
    hide Occurs, HasType;
    assert forall x :: OccursMaybe(x, t, o) <==> o.Just? && Occurs(x, t, o.v);
  }

  // ---------------------------------------------------------------- tables inside indices

  /** P holds of all tables inside the table's indices. */
  ghost function Deeper(P: Tab -> bool): Tab -> bool {
    (x: Tab) => TabOk(x) ==> forall i :: 0 <= i < |x.entries| ==>
        EntryHas(x.index, x.result, x.entries[i]) && AllList(P, x.index, x.entries[i].index)
  }

  /** What holds of all tables inside a value holds of all tables inside their indices. */
  lemma {:induction false} Deepens(P: Tab -> bool, t: Type, v: Val)
    requires HasType(t, v) && All(P, t, v)
    ensures All(Deeper(P), t, v)
    decreases v
  {
    hide All, AllMaybe, AllList, AllEntry, EntryHas, ElemHas, ListHas, Deeper;
    match t {
      case TRecord(fields) =>
        AllRecord(P, fields, v);
        AllRecord(Deeper(P), fields, v);
        forall i | 0 <= i < |fields| ensures AllMaybe(Deeper(P), fields[i].t, v.fields[i]) {
          DeepensMaybe(P, fields[i].t, v.fields[i]);
        }
      case TVector(elem) =>
        AllVector(P, elem, v);
        AllVector(Deeper(P), elem, v);
        forall i | 0 <= i < |v.elems| ensures AllMaybe(Deeper(P), elem, v.elems[i]) {
          DeepensMaybe(P, elem, v.elems[i]);
        }
      case TList(types) =>
        AllListed(P, types, v);
        AllListed(Deeper(P), types, v);
        DeepensList(P, types, v.vals);
      case TTable(index, result) =>
        AllTable(P, index, result, v);
        AllTable(Deeper(P), index, result, v);
        DeeperIs(P, Tab(index, result, v.entries));
        forall i | 0 <= i < |v.entries| ensures AllEntry(Deeper(P), index, result, v.entries[i]) {
          DeepensEntry(P, index, result, v.entries[i]);
        }
      case _ =>
        AllScalar(Deeper(P), t, v);
    }
  }

  lemma {:induction false} DeepensMaybe(P: Tab -> bool, t: Type, o: Maybe)
    requires ElemHas(t, o) && AllMaybe(P, t, o)
    ensures AllMaybe(Deeper(P), t, o)
    decreases o
  {
    hide All, AllMaybe, HasType, Deeper;
    AllIn(P, t, o);
    AllIn(Deeper(P), t, o);
    if o.Just? {
      Deepens(P, t, o.v);
    }
  }

  lemma {:induction false} DeepensList(P: Tab -> bool, types: seq<Type>, vs: seq<Val>)
    requires ListHas(types, vs) && AllList(P, types, vs)
    ensures AllList(Deeper(P), types, vs)
    decreases vs
  {
    hide All, AllList, HasType, Deeper;
    AllVals(P, types, vs);
    AllVals(Deeper(P), types, vs);
    forall i | 0 <= i < |vs| ensures All(Deeper(P), types[i], vs[i]) {
      Deepens(P, types[i], vs[i]);
    }
  }

  lemma {:induction false} DeepensEntry(P: Tab -> bool, index: seq<Type>, result: Yield, e: Entry)
    requires EntryHas(index, result, e) && AllEntry(P, index, result, e)
    ensures AllEntry(Deeper(P), index, result, e)
    decreases e
  {
    hide AllList, AllMaybe, AllEntry, ListHas, HasType, Deeper;
    AllParts(P, index, result, e);
    AllParts(Deeper(P), index, result, e);
    DeepensList(P, index, e.index);
    if result.YieldOf? {
      DeepensMaybe(P, result.t, e.result);
    }
  }

  lemma DeeperIs(P: Tab -> bool, x: Tab)
    requires TabOk(x) && forall i :: 0 <= i < |x.entries| ==> AllEntry(P, x.index, x.result, x.entries[i])
    ensures Deeper(P)(x)
  {
    hide AllEntry, AllList, ListHas, HasType;
    forall i | 0 <= i < |x.entries|
      ensures EntryHas(x.index, x.result, x.entries[i]) && AllList(P, x.index, x.entries[i].index)
    {
      AllParts(P, x.index, x.result, x.entries[i]);
    }
  }

  // ---------------------------------------------------------------- tables of the written form

  /** The written form of a table inside a value. */
  ghost function CanonTab(w: World, x: Tab): Tab
    requires TabOk(x)
  {
    Tab(x.index, x.result, CanonTable(w, x.index, x.result, x.entries))
  }

  /** Q of a table's written form is P of the table. */
  ghost predicate Turns(w: World, P: Tab -> bool, Q: Tab -> bool) {
    forall x :: TabOk(x) ==> (P(x) <==> Q(CanonTab(w, x)))
  }

  /** So if P holds of all tables inside a value, Q holds of all inside its written form, and vice versa. */
  lemma {:induction false} AllCanon(w: World, P: Tab -> bool, Q: Tab -> bool, t: Type, v: Val)
    requires HasType(t, v) && Turns(w, P, Q)
    ensures All(P, t, v) <==> All(Q, t, Canon(w, t, v))
    decreases v
  {
    hide All, AllMaybe, AllList, AllEntry, Turns, CanonMaybe, CanonTable, CanonEntry, EntryHas, ElemHas, ListHas;
    hide Sorted;
    var c := Canon(w, t, v);
    match t {
      case TRecord(fields) =>
        AllRecord(P, fields, v);
        AllRecord(Q, fields, c);
        forall i | 0 <= i < |fields|
          ensures AllMaybe(P, fields[i].t, v.fields[i]) <==> AllMaybe(Q, fields[i].t, c.fields[i])
        {
          AllCanonMaybe(w, P, Q, fields[i].t, v.fields[i]);
          assert c.fields == CanonFields(w, fields, v.fields);
        }
      case TVector(elem) =>
        AllVector(P, elem, v);
        AllVector(Q, elem, c);
        forall i | 0 <= i < |v.elems| ensures AllMaybe(P, elem, v.elems[i]) <==> AllMaybe(Q, elem, c.elems[i]) {
          AllCanonMaybe(w, P, Q, elem, v.elems[i]);
          assert c.elems == CanonElems(w, elem, v.elems);
        }
      case TList(types) =>
        AllListed(P, types, v);
        AllListed(Q, types, c);
        AllCanonList(w, P, Q, types, v.vals);
      case TTable(index, result) =>
        AllTable(P, index, result, v);
        AllTable(Q, index, result, c);
        AllCanonTable(w, P, Q, index, result, v.entries);
      case _ =>
        AllScalar(P, t, v);
        AllScalar(Q, t, c);
    }
  }

  lemma {:induction false} AllCanonMaybe(w: World, P: Tab -> bool, Q: Tab -> bool, t: Type, o: Maybe)
    requires ElemHas(t, o) && Turns(w, P, Q)
    ensures AllMaybe(P, t, o) <==> AllMaybe(Q, t, CanonMaybe(w, t, o))
    decreases o
  {
    hide All, AllMaybe, Turns, Canon, HasType;
    AllIn(P, t, o);
    AllIn(Q, t, CanonMaybe(w, t, o));
    if o.Just? {
      AllCanon(w, P, Q, t, o.v);
    }
  }

  lemma {:induction false} AllCanonList(w: World, P: Tab -> bool, Q: Tab -> bool, types: seq<Type>, vs: seq<Val>)
    requires ListHas(types, vs) && Turns(w, P, Q)
    ensures AllList(P, types, vs) <==> AllList(Q, types, CanonList(w, types, vs))
    decreases vs
  {
    hide All, AllList, Turns, Canon, HasType;
    var cs := CanonList(w, types, vs);
    AllVals(P, types, vs);
    AllVals(Q, types, cs);
    forall i | 0 <= i < |vs| ensures All(P, types[i], vs[i]) <==> All(Q, types[i], cs[i]) {
      AllCanon(w, P, Q, types[i], vs[i]);
    }
  }

  lemma {:induction false} AllCanonEntry(w: World, P: Tab -> bool, Q: Tab -> bool, index: seq<Type>, result: Yield,
      e: Entry)
    requires EntryHas(index, result, e) && Turns(w, P, Q)
    ensures AllEntry(P, index, result, e) <==> AllEntry(Q, index, result, CanonEntry(w, index, result, e))
    decreases e
  {
    hide AllList, AllMaybe, AllEntry, Turns, CanonList, CanonMaybe, ListHas, HasType;
    AllParts(P, index, result, e);
    AllParts(Q, index, result, CanonEntry(w, index, result, e));
    AllCanonList(w, P, Q, index, e.index);
    if result.YieldOf? {
      AllCanonMaybe(w, P, Q, result.t, e.result);
    }
  }

  lemma {:induction false} AllCanonTable(w: World, P: Tab -> bool, Q: Tab -> bool, index: seq<Type>, result: Yield,
      es: seq<Entry>)
    requires TabOk(Tab(index, result, es)) && Turns(w, P, Q)
    ensures P(Tab(index, result, es)) <==> Q(CanonTab(w, Tab(index, result, es)))
    ensures (forall i :: 0 <= i < |es| ==> AllEntry(P, index, result, es[i])) <==>
            (var cs := CanonTable(w, index, result, es); forall i :: 0 <= i < |cs| ==>
                AllEntry(Q, index, result, cs[i]))
    decreases es
  {
    hide AllEntry, CanonEntry, EntryHas, Sorted, ListHas;
    assert TabOk(Tab(index, result, es));
    var all, cs := CanonEntries(w, index, result, es), CanonTable(w, index, result, es);
    forall i | 0 <= i < |es| ensures AllEntry(P, index, result, es[i]) <==> AllEntry(Q, index, result, all[i]) {
      AllCanonEntry(w, P, Q, index, result, es[i]);
    }
    if forall i :: 0 <= i < |es| ==> AllEntry(P, index, result, es[i]) {
      forall k | 0 <= k < |cs| ensures AllEntry(Q, index, result, cs[k]) {
        assert cs[k] in all;
        var i :| 0 <= i < |all| && all[i] == cs[k];
        assert AllEntry(P, index, result, es[i]);
      }
    }
    if forall k :: 0 <= k < |cs| ==> AllEntry(Q, index, result, cs[k]) {
      forall i | 0 <= i < |es| ensures AllEntry(P, index, result, es[i]) {
        assert all[i] in cs;
        var k :| 0 <= k < |cs| && cs[k] == all[i];
        assert AllEntry(Q, index, result, cs[k]);
      }
    }
  }

  // ---------------------------------------------------------------- properties of tables

  ghost function Keys(w: World): Tab -> bool { x => Keyed(w, x) }

  ghost function Fixes(w: World): Tab -> bool { x => Fixed(w, x) }

  ghost function Firms(w: World): Tab -> bool { x => Firm(w, x) }

  ghost predicate NoGaps(x: Tab) {
    TabOk(x) ==> forall i :: 0 <= i < |x.entries| ==>
        EntryHas(x.index, x.result, x.entries[i]) && Gap(x.index, x.entries[i].index) == 0
  }

  /** The same of a table in written form, where the indices are the forms themselves. */
  ghost function Orders(): Tab -> bool { (x: Tab) => |x.entries| >= 2 ==> NoGaps(x) }

  ghost function Tights(): Tab -> bool { (x: Tab) => |x.entries| >= 2 || x.result.YieldOf? ==> NoGaps(x) }

  lemma NoGapsIs(w: World, x: Tab)
    requires TabOk(x)
    ensures TabOk(CanonTab(w, x)) && |CanonTab(w, x).entries| == |x.entries|
    ensures NoGaps(CanonTab(w, x)) <==>
            forall i :: 0 <= i < |x.entries| ==> FirmEntry(w, x.index, x.result, x.entries[i])
  {
    hide Gap, ListHas, HasType, Sorted, CanonList;
    var all, y := CanonEntries(w, x.index, x.result, x.entries), CanonTab(w, x);
    forall i | 0 <= i < |x.entries|
      ensures all[i] in y.entries && all[i].index == CanonList(w, x.index, x.entries[i].index)
    {
      assert all[i] == CanonEntry(w, x.index, x.result, x.entries[i]);
    }
    forall k | 0 <= k < |y.entries| ensures exists i :: 0 <= i < |all| && all[i] == y.entries[k] {
      assert y.entries[k] in all;
    }
  }

  lemma TurnFixed(w: World)
    ensures Turns(w, Fixes(w), Orders())
  {
    hide NoGaps, CanonTable, FirmEntry;
    forall x | TabOk(x) ensures Fixed(w, x) <==> Orders()(CanonTab(w, x)) {
      NoGapsIs(w, x);
    }
  }

  lemma TurnFirm(w: World)
    ensures Turns(w, Firms(w), Tights())
  {
    hide NoGaps, CanonTable, FirmEntry;
    forall x | TabOk(x) ensures Firm(w, x) <==> Tights()(CanonTab(w, x)) {
      NoGapsIs(w, x);
    }
  }

  // ---------------------------------------------------------------- writing the written form again

  lemma KeysTooList(w: World, w': World, types: seq<Type>, vs: seq<Val>)
    requires ListHas(types, vs) && AllList(Keys(w), types, vs) && w.inner == w'.inner
    ensures AllList(Keys(w'), types, vs)
  {
    hide OccursList, ListHas, Keyed;
    forall x | OccursList(x, types, vs) ensures Keyed(w', x) {
      KeyedToo(w, w', x);
    }
  }

  /** A list of values and its written form, written in another run: the same if the values' tables are
      fixed, or it is the same run. */
  lemma CanonAgain(w: World, w': World, types: seq<Type>, vs: seq<Val>)
    requires ListHas(types, vs) && SameRun(w, w') && AllList(Keys(w), types, vs)
    requires w == w' || AllList(Fixes(w), types, vs)
    requires AllList(Keys(w), types, CanonList(w, types, vs))
    ensures CanonList(w', types, vs) == CanonList(w', types, CanonList(w, types, vs)) == CanonList(w, types, vs)
  {
    hide ListHas, OccursList, Keyed, Fixed, CanonList, AlikeList;
    var cs := CanonList(w, types, vs);
    CanonIsAlikeList(w, types, vs);
    CanonAlikeList(w, w, types, vs, vs);
    KeysTooList(w, w', types, vs);
    KeysTooList(w, w', types, cs);
    assert forall x :: OccursList(x, types, vs) ==> Keys(w)(x) && Keys(w')(x) && (w == w' || Fixes(w)(x));
    assert forall x :: OccursList(x, types, cs) ==> Keys(w')(x);
    AlikeCanonList(w, w', types, vs, vs);
    AlikeCanonList(w, w', types, vs, cs);
  }

  /** In the written form of a value, too, no table has equal indices twice. */
  lemma {:induction false} KeyedAgain(w: World, t: Type, v: Val)
    requires HasType(t, v) && All(Keys(w), t, v)
    ensures All(Keys(w), t, Canon(w, t, v))
    decreases v
  {
    hide All, AllMaybe, AllList, AllEntry, CanonMaybe, CanonTable, CanonEntry, EntryHas, ElemHas, ListHas, Sorted;
    hide Keyed;
    var c := Canon(w, t, v);
    match t {
      case TRecord(fields) =>
        AllRecord(Keys(w), fields, v);
        AllRecord(Keys(w), fields, c);
        forall i | 0 <= i < |fields| ensures AllMaybe(Keys(w), fields[i].t, c.fields[i]) {
          KeyedAgainMaybe(w, fields[i].t, v.fields[i]);
          assert c.fields == CanonFields(w, fields, v.fields);
        }
      case TVector(elem) =>
        AllVector(Keys(w), elem, v);
        AllVector(Keys(w), elem, c);
        forall i | 0 <= i < |v.elems| ensures AllMaybe(Keys(w), elem, c.elems[i]) {
          KeyedAgainMaybe(w, elem, v.elems[i]);
          assert c.elems == CanonElems(w, elem, v.elems);
        }
      case TList(types) =>
        AllListed(Keys(w), types, v);
        AllListed(Keys(w), types, c);
        KeyedAgainList(w, types, v.vals);
      case TTable(index, result) =>
        AllTable(Keys(w), index, result, v);
        AllTable(Keys(w), index, result, c);
        KeyedAgainTable(w, index, result, v.entries);
        assert c.entries == CanonTable(w, index, result, v.entries);
      case _ =>
        AllScalar(Keys(w), t, c);
    }
  }

  lemma {:induction false} KeyedAgainMaybe(w: World, t: Type, o: Maybe)
    requires ElemHas(t, o) && AllMaybe(Keys(w), t, o)
    ensures AllMaybe(Keys(w), t, CanonMaybe(w, t, o))
    decreases o
  {
    hide All, AllMaybe, Canon, HasType, Keys;
    AllIn(Keys(w), t, o);
    AllIn(Keys(w), t, CanonMaybe(w, t, o));
    if o.Just? {
      KeyedAgain(w, t, o.v);
    }
  }

  lemma {:induction false} KeyedAgainList(w: World, types: seq<Type>, vs: seq<Val>)
    requires ListHas(types, vs) && AllList(Keys(w), types, vs)
    ensures AllList(Keys(w), types, CanonList(w, types, vs))
    decreases vs
  {
    hide All, AllList, Canon, HasType, Keys;
    var cs := CanonList(w, types, vs);
    AllVals(Keys(w), types, vs);
    AllVals(Keys(w), types, cs);
    forall i | 0 <= i < |vs| ensures All(Keys(w), types[i], cs[i]) {
      KeyedAgain(w, types[i], vs[i]);
    }
  }

  lemma {:induction false} KeyedAgainEntry(w: World, index: seq<Type>, result: Yield, e: Entry)
    requires EntryHas(index, result, e) && AllEntry(Keys(w), index, result, e)
    ensures AllEntry(Keys(w), index, result, CanonEntry(w, index, result, e))
    decreases e
  {
    hide AllList, AllMaybe, AllEntry, CanonList, CanonMaybe, ListHas, HasType, Keys;
    AllParts(Keys(w), index, result, e);
    AllParts(Keys(w), index, result, CanonEntry(w, index, result, e));
    KeyedAgainList(w, index, e.index);
    if result.YieldOf? {
      KeyedAgainMaybe(w, result.t, e.result);
    }
  }

  lemma {:induction false} KeyedAgainTable(w: World, index: seq<Type>, result: Yield, es: seq<Entry>)
    requires TabOk(Tab(index, result, es)) && Keyed(w, Tab(index, result, es))
    requires forall i :: 0 <= i < |es| ==> AllEntry(Keys(w), index, result, es[i])
    ensures Keyed(w, CanonTab(w, Tab(index, result, es)))
    ensures var cs := CanonTable(w, index, result, es); forall i :: 0 <= i < |cs| ==>
            AllEntry(Keys(w), index, result, cs[i])
    decreases es
  {
    hide AllEntry, CanonEntry, EntryHas, Sorted, ListHas, Keys, AlikeList, CoversList;
    var x := Tab(index, result, es);
    var all, cs := CanonEntries(w, index, result, es), CanonTable(w, index, result, es);
    forall k | 0 <= k < |cs|
      ensures AllEntry(Keys(w), index, result, cs[k]) && CoversList(w.inner(index), cs[k].index)
    {
      assert cs[k] in all;
      var i :| 0 <= i < |all| && all[i] == cs[k];
      KeyedAgainEntry(w, index, result, es[i]);
      IndexOfForm(w, index, result, es[i]);
      CanonCoveredList(w, w.inner(index), index, es[i].index);
    }
    forall k, l | 0 <= k < l < |cs| ensures !AlikeList(cs[k].index, cs[l].index) {
      ApartAgain(w, x, k, l);
    }
  }

  lemma IndexOfForm(w: World, index: seq<Type>, result: Yield, e: Entry)
    requires EntryHas(index, result, e)
    ensures ListHas(index, e.index) && CanonEntry(w, index, result, e).index == CanonList(w, index, e.index)
  {
  }

  lemma ApartAgain(w: World, x: Tab, k: nat, l: nat)
    requires TabOk(x) && Keyed(w, x) && k < l < |x.entries|
    requires forall i :: 0 <= i < |x.entries| ==> AllEntry(Keys(w), x.index, x.result, x.entries[i])
    requires var cs := CanonTab(w, x).entries; forall i :: 0 <= i < |cs| ==> AllEntry(Keys(w), x.index, x.result, cs[i])
    ensures var cs := CanonTab(w, x).entries; !AlikeList(cs[k].index, cs[l].index)
  {
    hide AllEntry, CanonEntry, EntryHas, Sorted, ListHas, Keys, AlikeList, CoversList, EntryBefore;
    var all, cs := CanonEntries(w, x.index, x.result, x.entries), CanonTab(w, x).entries;
    assert cs[k] in cs && cs[l] in cs;
    var i :| 0 <= i < |all| && all[i] == cs[k];
    var j :| 0 <= j < |all| && all[j] == cs[l];
    KeyedDiffer(w, x);
    SortedOrdered(w, x.index, all);
    if i == j {
      EntryAsymmetric(w, x.index, cs[k], cs[l]);
    }
    FormsApart(w, x, i, j);
  }

  lemma FormsApart(w: World, x: Tab, i: nat, j: nat)
    requires TabOk(x) && Keyed(w, x) && i < |x.entries| && j < |x.entries| && i != j
    requires AllEntry(Keys(w), x.index, x.result, x.entries[i]) && AllEntry(Keys(w), x.index, x.result, x.entries[j])
    requires var c, d := CanonEntry(w, x.index, x.result, x.entries[i]), CanonEntry(w, x.index, x.result, x.entries[j]);
             AllEntry(Keys(w), x.index, x.result, c) && AllEntry(Keys(w), x.index, x.result, d)
    ensures var c, d := CanonEntry(w, x.index, x.result, x.entries[i]), CanonEntry(w, x.index, x.result, x.entries[j]);
            !AlikeList(c.index, d.index)
  {
    hide AllEntry, AllList, AllMaybe, ListHas, HasType, CanonList, CanonMaybe, AlikeList, CoversList, Keys;
    var a, b := x.entries[i], x.entries[j];
    var c, d := CanonEntry(w, x.index, x.result, a), CanonEntry(w, x.index, x.result, b);
    AllParts(Keys(w), x.index, x.result, a);
    AllParts(Keys(w), x.index, x.result, b);
    AllParts(Keys(w), x.index, x.result, c);
    AllParts(Keys(w), x.index, x.result, d);
    CanonAgain(w, w, x.index, a.index);
    CanonAgain(w, w, x.index, b.index);
    if AlikeList(c.index, d.index) {
      SameForm(w, x.index, c.index, d.index);
      CanonAlikeList(w, w, x.index, a.index, b.index);
      CanonAlikeList(w, w, x.index, b.index, a.index);
    }
  }

  lemma SameForm(w: World, types: seq<Type>, a: seq<Val>, b: seq<Val>)
    requires ListHas(types, a) && ListHas(types, b) && AlikeList(a, b)
    requires AllList(Keys(w), types, a) && AllList(Keys(w), types, b)
    ensures CanonList(w, types, a) == CanonList(w, types, b)
  {
    hide ListHas, OccursList, Keyed, CanonList, AlikeList;
    assert forall x :: OccursList(x, types, a) ==> Keys(w)(x);
    assert forall x :: OccursList(x, types, b) ==> Keys(w)(x);
    AlikeCanonList(w, w, types, a, b);
  }

  /** Tables that are fixed in one run are so in the written form and in any run like it. */
  lemma FixedAgain(w: World, w': World, types: seq<Type>, vs: seq<Val>)
    requires ListHas(types, vs) && SameRun(w, w') && AllList(Keys(w), types, vs) && AllList(Fixes(w), types, vs)
    ensures var cs := CanonList(w, types, vs);
            AllList(Keys(w'), types, cs) && AllList(Fixes(w'), types, cs) && CanonList(w', types, cs) == cs
  {
    hide AllList, ListHas, CanonList, Keys, Fixes, Turns;
    var cs := CanonList(w, types, vs);
    KeyedAgainList(w, types, vs);
    KeysTooList(w, w', types, cs);
    CanonAgain(w, w', types, vs);
    TurnFixed(w);
    TurnFixed(w');
    AllCanonList(w, Fixes(w), Orders(), types, vs);
    AllCanonList(w', Fixes(w'), Orders(), types, cs);
  }
}
