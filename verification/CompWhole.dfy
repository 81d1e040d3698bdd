/** Whole keys, with the bytes that are reserved and never written: equal values have equal keys exactly
    where no such bytes decide about the key or about the order of a table inside. */
module CompWhole {
  import opened Seqs
  import opened HashBytes
  import opened CompVals
  import opened CompOrder
  import opened CompKeys
  import opened CompGap
  import opened CompCanon

  // ---------------------------------------------------------------- the tables inside a value

  datatype Tab = Tab(index: seq<Type>, result: Yield, entries: seq<Entry>)

  ghost predicate TabOk(x: Tab) { forall i :: 0 <= i < |x.entries| ==> EntryHas(x.index, x.result, x.entries[i]) }

  /** A table occurs in a value: it is the value, or occurs in an index, a yield or another part. */
  ghost predicate Occurs(x: Tab, t: Type, v: Val)
    requires HasType(t, v)
    decreases v, 1
  {
    match t
    case TRecord(fields) => OccursFields(x, fields, v.fields)
    case TVector(elem) => OccursElems(x, elem, v.elems)
    case TList(types) => OccursList(x, types, v.vals)
    case TTable(index, result) => x == Tab(index, result, v.entries) || OccursEntries(x, index, result, v.entries)
    case _ => false
  }

  ghost predicate OccursMaybe(x: Tab, t: Type, o: Maybe)
    requires ElemHas(t, o)
    decreases o, 0
  {
    o.Just? && Occurs(x, t, o.v)
  }

  ghost predicate OccursFields(x: Tab, fields: seq<Field>, os: seq<Maybe>)
    requires FieldsHave(fields, os)
    decreases os, 0
  {
    exists i :: 0 <= i < |os| && OccursMaybe(x, fields[i].t, os[i])
  }

  ghost predicate OccursElems(x: Tab, t: Type, os: seq<Maybe>)
    requires forall i :: 0 <= i < |os| ==> ElemHas(t, os[i])
    decreases os, 0
  {
    exists i :: 0 <= i < |os| && OccursMaybe(x, t, os[i])
  }

  ghost predicate OccursList(x: Tab, types: seq<Type>, vs: seq<Val>)
    requires ListHas(types, vs)
    decreases vs, 0
  {
    exists i :: 0 <= i < |vs| && Occurs(x, types[i], vs[i])
  }

  ghost predicate OccursEntry(x: Tab, index: seq<Type>, result: Yield, e: Entry)
    requires EntryHas(index, result, e)
    decreases e, 0
  {
    OccursList(x, index, e.index) || (result.YieldOf? && OccursMaybe(x, result.t, e.result))
  }

  ghost predicate OccursEntries(x: Tab, index: seq<Type>, result: Yield, es: seq<Entry>)
    requires forall i :: 0 <= i < |es| ==> EntryHas(index, result, es[i])
    decreases es, 0
  {
    exists i :: 0 <= i < |es| && OccursEntry(x, index, result, es[i])
  }

  // ---------------------------------------------------------------- conditions on tables

  /** As in a dictionary: no two entries have equal indices, and the functions in them have ids. (With
      unwritten bytes in its keys a dictionary can hold equal indices twice; such tables are not covered.) */
  ghost predicate Keyed(w: World, x: Tab) {
    TabOk(x) ==>
      && |w.inner(x.index)| <= TWO32
      && (forall i :: 0 <= i < |x.entries| ==> CoversList(w.inner(x.index), x.entries[i].index))
      && forall i, j :: 0 <= i < j < |x.entries| ==> !AlikeList(x.entries[i].index, x.entries[j].index)
  }

  lemma KeyedToo(w: World, w': World, x: Tab)
    requires Keyed(w, x) && w.inner == w'.inner
    ensures Keyed(w', x)
  {
  }

  /** With two or more entries, no stored key of the table has unwritten bytes: nothing but the values
      decides the order of the entries. */
  ghost predicate Fixed(w: World, x: Tab) {
    TabOk(x) && |x.entries| >= 2 ==> forall i :: 0 <= i < |x.entries| ==> FirmEntry(w, x.index, x.result, x.entries[i])
  }

  /** The same if the table has two or more entries, or any and a yield, which is looked up by a new key. */
  ghost predicate Firm(w: World, x: Tab) {
    TabOk(x) && (|x.entries| >= 2 || x.result.YieldOf?) ==>
      forall i :: 0 <= i < |x.entries| ==> FirmEntry(w, x.index, x.result, x.entries[i])
  }

  ghost predicate FirmEntry(w: World, index: seq<Type>, result: Yield, e: Entry)
    requires EntryHas(index, result, e)
  {
    Gap(index, CanonList(w, index, e.index)) == 0
  }

  // ---------------------------------------------------------------- keys tell values apart

  /** Equal whole keys come from equal values, whatever the unwritten bytes hold. */
  lemma KeysTell(w: World, w': World, types: seq<Type>, a: seq<Val>, b: seq<Val>)
    requires ListHas(types, a) && ListHas(types, b) && w.inner(types) == w'.inner(types) && |w.inner(types)| <= TWO32
    requires CoversList(w.inner(types), a) && CoversList(w.inner(types), b)
    requires StoredKey(w, types, CanonList(w, types, a)) == StoredKey(w', types, CanonList(w', types, b))
    ensures CanonList(w, types, a) == CanonList(w', types, b) && AlikeList(a, b)
  {
    hide CanonList, ListHas, CoversList, KeyBytes, DecodeKey, AlikeList;
    var f, x, y := w.inner(types), CanonList(w, types, a), CanonList(w', types, b);
    CanonCoveredList(w, f, types, a);
    CanonCoveredList(w', f, types, b);
    StoredRecovers(w, types, x);
    StoredRecovers(w', types, y);
    CanonAlikeList(w, w', types, a, b);
  }

  lemma StoredRecovers(w: World, types: seq<Type>, vs: seq<Val>)
    requires ListHas(types, vs) && CoversList(w.inner(types), vs) && |w.inner(types)| <= TWO32
    ensures DecodeKey(w.inner(types), types, StoredKey(w, types, vs)).Ok?
    ensures DecodeKey(w.inner(types), types, StoredKey(w, types, vs)).v == vs
  {
    hide ListHas, CoversList, KeyBytes, DecodeKey;
    var f := w.inner(types);
    KeyRecovers(f, f, types, vs, if Slack(f, types, vs) == 0 then [] else w.tail(types, vs));
  }

  /** So the stored keys of a table's entries differ. */
  lemma KeyedDiffer(w: World, x: Tab)
    requires TabOk(x) && Keyed(w, x)
    ensures KeysDiffer(w, x.index, CanonEntries(w, x.index, x.result, x.entries))
  {
    hide StoredKey, AlikeList, CoversList, CanonList;
    var cs := CanonEntries(w, x.index, x.result, x.entries);
    forall i, j | 0 <= i < j < |cs| ensures StoredKey(w, x.index, cs[i].index) != StoredKey(w, x.index, cs[j].index) {
      var a, b := x.entries[i], x.entries[j];
      assert EntryHas(x.index, x.result, a) && EntryHas(x.index, x.result, b);
      assert cs[i] == CanonEntry(w, x.index, x.result, a) && cs[j] == CanonEntry(w, x.index, x.result, b);
      if StoredKey(w, x.index, CanonList(w, x.index, a.index)) ==
          StoredKey(w, x.index, CanonList(w, x.index, b.index)) {
        KeysTell(w, w, x.index, a.index, b.index);
      }
    }
  }

  // ---------------------------------------------------------------- equal values take the same form

  /** Equal values are written in the same form, if unwritten bytes decide no order in one of them. */
  lemma {:induction false} AlikeCanon(w: World, w': World, t: Type, a: Val, b: Val)
    requires HasType(t, a) && HasType(t, b) && Alike(a, b) && SameRun(w, w')
    requires forall x :: Occurs(x, t, a) ==> Keyed(w, x) && (w == w' || Fixed(w, x))
    requires forall x :: Occurs(x, t, b) ==> Keyed(w', x)
    ensures Canon(w, t, a) == Canon(w', t, b)
    decreases a
  {
    hide Sorted, SameRun, AlikeMaybe, AlikeEntries, CanonTable, EntryHas, ElemHas, CanonMaybe, Keyed, Fixed;
    hide OccursMaybe, OccursEntries;
    match t {
      case TRecord(fields) =>
        forall i | 0 <= i < |a.fields|
            ensures CanonMaybe(w, fields[i].t, a.fields[i]) == CanonMaybe(w', fields[i].t, b.fields[i]) {
          assert forall x :: OccursMaybe(x, fields[i].t, a.fields[i]) ==> Occurs(x, t, a);
          assert forall x :: OccursMaybe(x, fields[i].t, b.fields[i]) ==> Occurs(x, t, b);
          AlikeCanonMaybe(w, w', fields[i].t, a.fields[i], b.fields[i]);
        }
      case TVector(elem) =>
        forall i | 0 <= i < |a.elems| ensures CanonMaybe(w, elem, a.elems[i]) == CanonMaybe(w', elem, b.elems[i]) {
          assert forall x :: OccursMaybe(x, elem, a.elems[i]) ==> Occurs(x, t, a);
          assert forall x :: OccursMaybe(x, elem, b.elems[i]) ==> Occurs(x, t, b);
          AlikeCanonMaybe(w, w', elem, a.elems[i], b.elems[i]);
        }
      case TList(types) =>
        AlikeCanonList(w, w', types, a.vals, b.vals);
      case TTable(index, result) =>
        assert Occurs(Tab(index, result, a.entries), t, a) && Occurs(Tab(index, result, b.entries), t, b);
        AlikeCanonTable(w, w', index, result, a.entries, b.entries);
      case _ =>
    }
  }

  lemma {:induction false} AlikeCanonMaybe(w: World, w': World, t: Type, a: Maybe, b: Maybe)
    requires ElemHas(t, a) && ElemHas(t, b) && AlikeMaybe(a, b) && SameRun(w, w')
    requires forall x :: OccursMaybe(x, t, a) ==> Keyed(w, x) && (w == w' || Fixed(w, x))
    requires forall x :: OccursMaybe(x, t, b) ==> Keyed(w', x)
    ensures CanonMaybe(w, t, a) == CanonMaybe(w', t, b)
    decreases a
  {
    hide Canon, HasType, Alike, SameRun, Keyed, Fixed, Occurs;
    if a.Just? {
      assert forall x :: Occurs(x, t, a.v) ==> OccursMaybe(x, t, a);
      assert forall x :: Occurs(x, t, b.v) ==> OccursMaybe(x, t, b);
      AlikeCanon(w, w', t, a.v, b.v);
    }
  }

  lemma {:induction false} AlikeCanonList(w: World, w': World, types: seq<Type>, a: seq<Val>, b: seq<Val>)
    requires ListHas(types, a) && ListHas(types, b) && AlikeList(a, b) && SameRun(w, w')
    requires forall x :: OccursList(x, types, a) ==> Keyed(w, x) && (w == w' || Fixed(w, x))
    requires forall x :: OccursList(x, types, b) ==> Keyed(w', x)
    ensures CanonList(w, types, a) == CanonList(w', types, b)
    decreases a
  {
    hide Canon, HasType, Alike, SameRun, Keyed, Fixed, Occurs;
    forall i | 0 <= i < |a| ensures Canon(w, types[i], a[i]) == Canon(w', types[i], b[i]) {
      assert forall x :: Occurs(x, types[i], a[i]) ==> OccursList(x, types, a);
      assert forall x :: Occurs(x, types[i], b[i]) ==> OccursList(x, types, b);
      AlikeCanon(w, w', types[i], a[i], b[i]);
    }
  }

  lemma {:induction false} AlikeCanonEntry(w: World, w': World, index: seq<Type>, result: Yield, a: Entry, b: Entry)
    requires EntryHas(index, result, a) && EntryHas(index, result, b) && AlikeEntry(a, b) && SameRun(w, w')
    requires forall x :: OccursEntry(x, index, result, a) ==> Keyed(w, x) && (w == w' || Fixed(w, x))
    requires forall x :: OccursEntry(x, index, result, b) ==> Keyed(w', x)
    ensures CanonEntry(w, index, result, a) == CanonEntry(w', index, result, b)
    decreases a
  {
    hide CanonList, CanonMaybe, ListHas, HasType, AlikeList, AlikeMaybe, SameRun, Keyed, Fixed, OccursList, OccursMaybe;
    assert forall x :: OccursList(x, index, a.index) ==> OccursEntry(x, index, result, a);
    assert forall x :: OccursList(x, index, b.index) ==> OccursEntry(x, index, result, b);
    AlikeCanonList(w, w', index, a.index, b.index);
    if result.YieldOf? {
      assert forall x :: OccursMaybe(x, result.t, a.result) ==> OccursEntry(x, index, result, a);
      assert forall x :: OccursMaybe(x, result.t, b.result) ==> OccursEntry(x, index, result, b);
      AlikeCanonMaybe(w, w', result.t, a.result, b.result);
    }
  }

  lemma {:induction false} AlikeCanonTable(w: World, w': World, index: seq<Type>, result: Yield, a: seq<Entry>,
      b: seq<Entry>)
    requires TabOk(Tab(index, result, a)) && TabOk(Tab(index, result, b)) && AlikeEntries(a, b) && SameRun(w, w')
    requires Keyed(w, Tab(index, result, a)) && Keyed(w', Tab(index, result, b))
    requires w == w' || Fixed(w, Tab(index, result, a))
    requires forall x :: OccursEntries(x, index, result, a) ==> Keyed(w, x) && (w == w' || Fixed(w, x))
    requires forall x :: OccursEntries(x, index, result, b) ==> Keyed(w', x)
    ensures CanonTable(w, index, result, a) == CanonTable(w', index, result, b)
    decreases a
  {
    hide CanonEntry, EntryHas, SameRun, Sorted, ListHas, KeysDiffer, Keyed, Fixed, OccursEntry;
    var A, B := CanonEntries(w, index, result, a), CanonEntries(w', index, result, b);
    forall e | e in A ensures e in B {
      var i :| 0 <= i < |A| && A[i] == e;
      assert A[i] == CanonEntry(w, index, result, a[i]);
      assert HasAlike(a[i], b);
      var j :| 0 <= j < |b| && AlikeEntry(a[i], b[j]);
      assert forall x :: OccursEntry(x, index, result, a[i]) ==> OccursEntries(x, index, result, a);
      assert forall x :: OccursEntry(x, index, result, b[j]) ==> OccursEntries(x, index, result, b);
      AlikeCanonEntry(w, w', index, result, a[i], b[j]);
      assert B[j] == e;
    }
    KeyedDiffer(w, Tab(index, result, a));
    KeyedDiffer(w', Tab(index, result, b));
    if w != w' {
      FixedTight(w, Tab(index, result, a));
    }
    SortedSame(w, w', index, A, B);
  }

  ghost predicate AllTight(w: World, index: seq<Type>, es: seq<Entry>)
    requires Indexed(index, es)
  {
    forall i :: 0 <= i < |es| ==> Slack(w.inner(index), index, es[i].index) == 0
  }

  lemma FixedTight(w: World, x: Tab)
    requires TabOk(x) && Fixed(w, x)
    ensures var cs := CanonEntries(w, x.index, x.result, x.entries); |cs| >= 2 ==> AllTight(w, x.index, cs)
  {
    hide Slack, Gap, EntryHas;
    var cs := CanonEntries(w, x.index, x.result, x.entries);
    if |cs| >= 2 {
      forall i | 0 <= i < |cs| ensures Slack(w.inner(x.index), x.index, cs[i].index) == 0 {
        assert FirmEntry(w, x.index, x.result, x.entries[i]);
        SlackIsGap(w.inner(x.index), x.index, cs[i].index);
      }
    }
  }

  /** Sorting brings the same entries into the same order, whatever their order before. */
  lemma SortedSame(w: World, w': World, index: seq<Type>, a: seq<Entry>, b: seq<Entry>)
    requires Indexed(index, a) && Indexed(index, b) && |a| == |b| && (forall x :: x in a ==> x in b) && SameRun(w, w')
    requires KeysDiffer(w, index, a) && KeysDiffer(w', index, b) && (w == w' || |a| <= 1 || AllTight(w, index, a))
    ensures Sorted(w, index, a) == Sorted(w', index, b)
  {
    if |a| <= 1 {
      AtMostOne(w, w', index, a, b);
    } else {
      hide Sorted, KeysDiffer, StoredKey, ListHas, Slack, Before;
      SortedOrdered(w, index, a);
      SortedOrdered(w', index, b);
      NoMoreInside(w, index, a, b);
      var r := Sorted(w', index, b);
      forall i | 0 <= i < |r| ensures StoredKey(w, index, r[i].index) == StoredKey(w', index, r[i].index) {
        assert r[i] in r && r[i] in b && r[i] in a;
        var k :| 0 <= k < |a| && a[k] == r[i];
        if w != w' {
          TightKey(w, w', index, a[k].index);
        }
      }
      assert Ordered(w, index, r) by {
        forall i, j | 0 <= i < j < |r| ensures EntryBefore(w, index, r[i], r[j]) {
          assert EntryBefore(w', index, r[i], r[j]);
        }
      }
      OrderedUnique(w, index, Sorted(w, index, a), r);
    }
  }

  lemma AtMostOne(w: World, w': World, index: seq<Type>, a: seq<Entry>, b: seq<Entry>)
    requires Indexed(index, a) && Indexed(index, b) && |a| == |b| <= 1 && forall x :: x in a ==> x in b
    ensures Sorted(w, index, a) == Sorted(w', index, b)
  {
    if |a| == 1 {
      assert a[0] in a && a == b;
      assert a[..0] == [];
    }
  }

  /** A list without repetitions inside another of the same length leaves nothing over. */
  lemma NoMoreInside(w: World, index: seq<Type>, a: seq<Entry>, b: seq<Entry>)
    requires Indexed(index, a) && KeysDiffer(w, index, a) && |a| == |b| && forall x :: x in a ==> x in b
    ensures forall x :: x in b ==> x in a
  {
    hide StoredKey, ListHas;
    assert Distinct(a);
    DistinctCount(a);
    ElementsFew(b);
    if Elements(a) != Elements(b) {
      assert Elements(a) < Elements(b);
      ProperSubset(Elements(a), Elements(b));
    }
    assert forall x :: x in b ==> x in Elements(b);
  }

  lemma TightKey(w: World, w': World, index: seq<Type>, vs: seq<Val>)
    requires ListHas(index, vs) && SameRun(w, w') && Slack(w.inner(index), index, vs) == 0
    ensures StoredKey(w, index, vs) == StoredKey(w', index, vs)
  {
  }

  // ---------------------------------------------------------------- equal keys

  /** No unwritten bytes in the key itself, nor where they would decide the order of a table inside it. */
  ghost predicate FixedKey(w: World, types: seq<Type>, vs: seq<Val>)
    requires ListHas(types, vs)
  {
    Gap(types, CanonList(w, types, vs)) == 0 && forall x :: OccursList(x, types, vs) ==> Fixed(w, x)
  }

  /** The values can be an index of a table: functions have ids and tables inside are dictionaries. */
  ghost predicate Usable(w: World, types: seq<Type>, vs: seq<Val>)
    requires ListHas(types, vs)
  {
    && |w.inner(types)| <= TWO32 && CoversList(w.inner(types), vs)
    && forall x :: OccursList(x, types, vs) ==> Keyed(w, x)
  }

  /** The key itself and all tables inside it are free of unwritten bytes that matter, to the order of
      entries or to looking up a yield. */
  ghost predicate FirmKey(w: World, types: seq<Type>, vs: seq<Val>)
    requires ListHas(types, vs)
  {
    Gap(types, CanonList(w, types, vs)) == 0 && forall x :: OccursList(x, types, vs) ==> Firm(w, x)
  }

  /** Whole keys, unwritten bytes included, are equal exactly when the values are. */
  lemma KeysEqual(w: World, w': World, types: seq<Type>, a: seq<Val>, b: seq<Val>)
    requires ListHas(types, a) && ListHas(types, b) && SameRun(w, w') && Usable(w, types, a) && Usable(w', types, b)
    requires FixedKey(w, types, a)
    ensures StoredKey(w, types, CanonList(w, types, a)) == StoredKey(w', types, CanonList(w', types, b)) <==>
            AlikeList(a, b)
  {
    hide StoredKey, CanonList, AlikeList, ListHas, CoversList, Keyed, Fixed, OccursList;
    if StoredKey(w, types, CanonList(w, types, a)) == StoredKey(w', types, CanonList(w', types, b)) {
      KeysTell(w, w', types, a, b);
    }
    if AlikeList(a, b) {
      AlikeCanonList(w, w', types, a, b);
      SlackIsGap(w.inner(types), types, CanonList(w, types, a));
      TightKey(w, w', types, CanonList(w, types, a));
    }
  }

  // ---------------------------------------------------------------- keys without vectors

  /** Without vectors in the types, unwritten bytes never matter. */
  lemma PlainKey(w: World, types: seq<Type>, vs: seq<Val>)
    requires ListHas(types, vs) && NoVectorsIn(types)
    ensures FirmKey(w, types, vs) && FixedKey(w, types, vs)
  {
    hide NoVectorsIn, ListHas, CanonList, Gap, Slack, OccursList;
    PlainGap(w, types, CanonList(w, types, vs));
    forall x | OccursList(x, types, vs) ensures Firm(w, x) && Fixed(w, x) {
      PlainInsideList(x, types, vs);
      if TabOk(x) {
        forall i | 0 <= i < |x.entries| ensures FirmEntry(w, x.index, x.result, x.entries[i]) {
          assert EntryHas(x.index, x.result, x.entries[i]);
          PlainGap(w, x.index, CanonList(w, x.index, x.entries[i].index));
        }
      }
    }
  }

  lemma PlainGap(w: World, types: seq<Type>, vs: seq<Val>)
    requires ListHas(types, vs) && NoVectorsIn(types)
    ensures Gap(types, vs) == 0
  {
    hide NoVectorsIn, ListHas, Gap, Slack;
    NoVectorsNoSlack(w.inner(types), types, vs);
    SlackIsGap(w.inner(types), types, vs);
  }

  lemma {:induction false} PlainInside(x: Tab, t: Type, v: Val)
    requires HasType(t, v) && NoVectors(t) && Occurs(x, t, v)
    ensures NoVectorsIn(x.index)
    decreases v, 1
  {
    hide NoVectorsIn, OccursMaybe, OccursList, ElemHas, EntryHas, OccursEntry;
    match t {
      case TRecord(fields) =>
        var i :| 0 <= i < |v.fields| && OccursMaybe(x, fields[i].t, v.fields[i]);
        assert NoVectorsField(fields[i]);
        PlainInsideMaybe(x, fields[i].t, v.fields[i]);
      case TList(types) =>
        PlainInsideList(x, types, v.vals);
      case TTable(index, result) =>
        if x != Tab(index, result, v.entries) {
          var i :| 0 <= i < |v.entries| && OccursEntry(x, index, result, v.entries[i]);
          PlainInsideEntry(x, index, result, v.entries[i]);
        }
    }
  }

  lemma {:induction false} PlainInsideMaybe(x: Tab, t: Type, o: Maybe)
    requires ElemHas(t, o) && NoVectors(t) && OccursMaybe(x, t, o)
    ensures NoVectorsIn(x.index)
    decreases o, 0
  {
    hide NoVectors, NoVectorsIn, Occurs, HasType;
    PlainInside(x, t, o.v);
  }

  lemma {:induction false} PlainInsideList(x: Tab, types: seq<Type>, vs: seq<Val>)
    requires ListHas(types, vs) && NoVectorsIn(types) && OccursList(x, types, vs)
    ensures NoVectorsIn(x.index)
    decreases vs, 0
  {
    hide NoVectors, Occurs, HasType;
    var i :| 0 <= i < |vs| && Occurs(x, types[i], vs[i]);
    PlainInside(x, types[i], vs[i]);
  }

  lemma {:induction false} PlainInsideEntry(x: Tab, index: seq<Type>, result: Yield, e: Entry)
    requires EntryHas(index, result, e) && NoVectorsIn(index) && NoVectorsYield(result) &&
             OccursEntry(x, index, result, e)
    ensures NoVectorsIn(x.index)
    decreases e, 0
  {
    hide NoVectors, NoVectorsIn, OccursList, OccursMaybe, ListHas, HasType;
    if OccursList(x, index, e.index) {
      PlainInsideList(x, index, e.index);
    } else {
      PlainInsideMaybe(x, result.t, e.result);
    }
  }

  /** So for such types whole keys are equal exactly when the values are, in any two runs. */
  lemma PlainKeysEqual(w: World, w': World, types: seq<Type>, a: seq<Val>, b: seq<Val>)
    requires ListHas(types, a) && ListHas(types, b) && SameRun(w, w') && Usable(w, types, a) && Usable(w', types, b)
    requires NoVectorsIn(types)
    ensures StoredKey(w, types, CanonList(w, types, a)) == StoredKey(w', types, CanonList(w', types, b)) <==>
            AlikeList(a, b)
  {
    hide StoredKey, CanonList, AlikeList, ListHas, NoVectorsIn, Usable, FixedKey;
    PlainKey(w, types, a);
    KeysEqual(w, w', types, a, b);
  }
}
