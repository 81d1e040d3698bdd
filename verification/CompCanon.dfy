/** The form in which a value is written: every table in the order of its entries' hash keys. Values
    that differ only in the order of their tables take the same form, and only those do. */
module CompCanon {
  import opened CompVals
  import opened CompOrder

  function Canon(w: World, t: Type, v: Val): (r: Val)
    requires HasType(t, v)
    ensures HasType(t, r)
    decreases v, 1
  {
    match t
    case TRecord(fields) => Record(CanonFields(w, fields, v.fields))
    case TVector(elem) => Vector(CanonElems(w, elem, v.elems))
    case TList(types) => List(CanonList(w, types, v.vals))
    case TTable(index, result) => Table(CanonTable(w, index, result, v.entries))
    case _ => v
  }

  function CanonMaybe(w: World, t: Type, o: Maybe): (r: Maybe)
    requires ElemHas(t, o)
    ensures ElemHas(t, r) && (r.Just? <==> o.Just?)
    decreases o, 0
  {
    if o.Just? then Just(Canon(w, t, o.v)) else Absent
  }

  function CanonFields(w: World, fields: seq<Field>, os: seq<Maybe>): (r: seq<Maybe>)
    requires FieldsHave(fields, os)
    ensures FieldsHave(fields, r)
    decreases os, 0
  {
    seq(|os|, i requires 0 <= i < |os| => CanonMaybe(w, fields[i].t, os[i]))
  }

  function CanonElems(w: World, elem: Type, os: seq<Maybe>): (r: seq<Maybe>)
    requires forall i :: 0 <= i < |os| ==> ElemHas(elem, os[i])
    ensures |r| == |os| && forall i :: 0 <= i < |r| ==> ElemHas(elem, r[i])
    decreases os, 0
  {
    seq(|os|, i requires 0 <= i < |os| => CanonMaybe(w, elem, os[i]))
  }

  function CanonList(w: World, types: seq<Type>, vs: seq<Val>): (r: seq<Val>)
    requires ListHas(types, vs)
    ensures ListHas(types, r) && |r| == |vs|
    decreases vs, 0
  {
    seq(|vs|, i requires 0 <= i < |vs| => Canon(w, types[i], vs[i]))
  }

  function CanonEntry(w: World, index: seq<Type>, result: Yield, e: Entry): (r: Entry)
    requires EntryHas(index, result, e)
    ensures EntryHas(index, result, r)
    decreases e, 0
  {
    Entry(CanonList(w, index, e.index), if result.YieldOf? then CanonMaybe(w, result.t, e.result) else Absent)
  }

  function CanonEntries(w: World, index: seq<Type>, result: Yield, es: seq<Entry>): (r: seq<Entry>)
    requires forall i :: 0 <= i < |es| ==> EntryHas(index, result, es[i])
    ensures |r| == |es| && forall i :: 0 <= i < |r| ==> EntryHas(index, result, r[i]) && ListHas(index, r[i].index)
    ensures Indexed(index, r)
    decreases es, 0
  {
    seq(|es|, i requires 0 <= i < |es| => CanonEntry(w, index, result, es[i]))
  }

  function CanonTable(w: World, index: seq<Type>, result: Yield, es: seq<Entry>): (r: seq<Entry>)
    requires forall i :: 0 <= i < |es| ==> EntryHas(index, result, es[i])
    ensures |r| == |es| && forall i :: 0 <= i < |r| ==> EntryHas(index, result, r[i])
    decreases es, 1
  {
    var cs := CanonEntries(w, index, result, es);
    var r := Sorted(w, index, cs);
    assert forall i :: 0 <= i < |r| ==> r[i] in r;
    r
  }

  // ---------------------------------------------------------------- equal values

  /** The same value, tables being the same whatever the order of their entries. */
  ghost predicate Alike(a: Val, b: Val)
    decreases a
  {
    match a
    case Record(os) => b.Record? && AlikeMaybes(os, b.fields)
    case Vector(os) => b.Vector? && AlikeMaybes(os, b.elems)
    case List(vs) => b.List? && AlikeList(vs, b.vals)
    case Table(es) => b.Table? && AlikeEntries(es, b.entries)
    case _ => a == b
  }

  ghost predicate AlikeEntries(a: seq<Entry>, b: seq<Entry>)
    decreases a
  {
    |a| == |b| && forall i :: 0 <= i < |a| ==> HasAlike(a[i], b)
  }

  ghost predicate HasAlike(a: Entry, b: seq<Entry>)
    decreases a, 1
  {
    exists j :: 0 <= j < |b| && AlikeEntry(a, b[j])
  }

  ghost predicate AlikeMaybe(a: Maybe, b: Maybe)
    decreases a
  {
    if a.Just? then b.Just? && Alike(a.v, b.v) else b.Absent?
  }

  ghost predicate AlikeMaybes(a: seq<Maybe>, b: seq<Maybe>)
    decreases a
  {
    |a| == |b| && forall i :: 0 <= i < |a| ==> AlikeMaybe(a[i], b[i])
  }

  ghost predicate AlikeList(a: seq<Val>, b: seq<Val>)
    decreases a
  {
    |a| == |b| && forall i :: 0 <= i < |a| ==> Alike(a[i], b[i])
  }

  ghost predicate AlikeEntry(a: Entry, b: Entry)
    decreases a, 0
  {
    AlikeList(a.index, b.index) && AlikeMaybe(a.result, b.result)
  }

  lemma {:induction false} AlikeTrans(a: Val, b: Val, c: Val)
    requires Alike(a, b) && Alike(b, c)
    ensures Alike(a, c)
    decreases a
  {
    hide AlikeEntry, AlikeMaybe;
    match a {
      case Record(os) =>
        forall i | 0 <= i < |os| ensures AlikeMaybe(os[i], c.fields[i]) {
          AlikeTransMaybe(os[i], b.fields[i], c.fields[i]);
        }
      case Vector(os) =>
        forall i | 0 <= i < |os| ensures AlikeMaybe(os[i], c.elems[i]) {
          AlikeTransMaybe(os[i], b.elems[i], c.elems[i]);
        }
      case List(vs) =>
        AlikeTransList(vs, b.vals, c.vals);
      case Table(es) =>
        forall i | 0 <= i < |es| ensures HasAlike(es[i], c.entries) {
          assert HasAlike(es[i], b.entries);
          var j :| 0 <= j < |b.entries| && AlikeEntry(es[i], b.entries[j]);
          assert HasAlike(b.entries[j], c.entries);
          var k :| 0 <= k < |c.entries| && AlikeEntry(b.entries[j], c.entries[k]);
          AlikeTransEntry(es[i], b.entries[j], c.entries[k]);
        }
      case _ =>
    }
  }

  lemma {:induction false} AlikeTransMaybe(a: Maybe, b: Maybe, c: Maybe)
    requires AlikeMaybe(a, b) && AlikeMaybe(b, c)
    ensures AlikeMaybe(a, c)
    decreases a
  {
    hide Alike;
    if a.Just? {
      AlikeTrans(a.v, b.v, c.v);
    }
  }

  lemma {:induction false} AlikeTransList(a: seq<Val>, b: seq<Val>, c: seq<Val>)
    requires AlikeList(a, b) && AlikeList(b, c)
    ensures AlikeList(a, c)
    decreases a
  {
    hide Alike;
    forall i | 0 <= i < |a| ensures Alike(a[i], c[i]) {
      AlikeTrans(a[i], b[i], c[i]);
    }
  }

  lemma {:induction false} AlikeTransEntry(a: Entry, b: Entry, c: Entry)
    requires AlikeEntry(a, b) && AlikeEntry(b, c)
    ensures AlikeEntry(a, c)
    decreases a
  {
    hide AlikeList, AlikeMaybe;
    AlikeTransList(a.index, b.index, c.index);
    AlikeTransMaybe(a.result, b.result, c.result);
  }

  /** The same hash function and function tables; what is left in unwritten bytes may differ. */
  ghost predicate SameRun(w: World, w': World) { w.hash == w'.hash && w.inner == w'.inner }

  // ---------------------------------------------------------------- values in the same form are equal

  lemma {:induction false} CanonAlike(w: World, w': World, t: Type, a: Val, b: Val)
    requires HasType(t, a) && HasType(t, b) && Canon(w, t, a) == Canon(w', t, b)
    ensures Alike(a, b)
    decreases a
  {
    hide Sorted, CanonTable, EntryHas, ElemHas, AlikeMaybe, AlikeEntries, CanonMaybe;
    match t {
      case TRecord(fields) =>
        forall i | 0 <= i < |a.fields| ensures AlikeMaybe(a.fields[i], b.fields[i]) {
          assert CanonFields(w, fields, a.fields)[i] == CanonFields(w', fields, b.fields)[i];
          CanonAlikeMaybe(w, w', fields[i].t, a.fields[i], b.fields[i]);
        }
      case TVector(elem) =>
        assert |CanonElems(w, elem, a.elems)| == |CanonElems(w', elem, b.elems)|;
        forall i | 0 <= i < |a.elems| ensures AlikeMaybe(a.elems[i], b.elems[i]) {
          assert CanonElems(w, elem, a.elems)[i] == CanonElems(w', elem, b.elems)[i];
          CanonAlikeMaybe(w, w', elem, a.elems[i], b.elems[i]);
        }
      case TList(types) =>
        CanonAlikeList(w, w', types, a.vals, b.vals);
      case TTable(index, result) =>
        CanonAlikeTable(w, w', index, result, a.entries, b.entries);
      case _ =>
    }
  }

  lemma {:induction false} CanonAlikeMaybe(w: World, w': World, t: Type, a: Maybe, b: Maybe)
    requires ElemHas(t, a) && ElemHas(t, b) && CanonMaybe(w, t, a) == CanonMaybe(w', t, b)
    ensures AlikeMaybe(a, b)
    decreases a
  {
    hide Canon, HasType, Alike;
    if a.Just? {
      CanonAlike(w, w', t, a.v, b.v);
    }
  }

  lemma {:induction false} CanonAlikeList(w: World, w': World, types: seq<Type>, a: seq<Val>, b: seq<Val>)
    requires ListHas(types, a) && ListHas(types, b) && CanonList(w, types, a) == CanonList(w', types, b)
    ensures AlikeList(a, b)
    decreases a
  {
    hide Canon, HasType, Alike;
    assert |CanonList(w, types, a)| == |CanonList(w', types, b)|;
    forall i | 0 <= i < |a| ensures Alike(a[i], b[i]) {
      assert CanonList(w, types, a)[i] == CanonList(w', types, b)[i];
      CanonAlike(w, w', types[i], a[i], b[i]);
    }
  }

  lemma {:induction false} CanonAlikeEntry(w: World, w': World, index: seq<Type>, result: Yield, a: Entry, b: Entry)
    requires EntryHas(index, result, a) && EntryHas(index, result, b)
    requires CanonEntry(w, index, result, a) == CanonEntry(w', index, result, b)
    ensures AlikeEntry(a, b)
    decreases a
  {
    hide CanonList, CanonMaybe, ListHas, AlikeList, HasType;
    CanonAlikeList(w, w', index, a.index, b.index);
    if result.YieldOf? {
      CanonAlikeMaybe(w, w', result.t, a.result, b.result);
    }
  }

  lemma {:induction false} CanonAlikeTable(w: World, w': World, index: seq<Type>, result: Yield, a: seq<Entry>,
      b: seq<Entry>)
    requires forall i :: 0 <= i < |a| ==> EntryHas(index, result, a[i])
    requires forall i :: 0 <= i < |b| ==> EntryHas(index, result, b[i])
    requires CanonTable(w, index, result, a) == CanonTable(w', index, result, b)
    ensures AlikeEntries(a, b)
    decreases a
  {
    hide CanonEntry, EntryHas, ListHas, Sorted;
    assert |CanonTable(w, index, result, a)| == |CanonTable(w', index, result, b)|;
    var A, B := CanonEntries(w, index, result, a), CanonEntries(w', index, result, b);
    forall i | 0 <= i < |a| ensures HasAlike(a[i], b) {
      assert A[i] in Sorted(w, index, A);
      assert A[i] in Sorted(w', index, B);
      var j :| 0 <= j < |B| && B[j] == A[i];
      CanonAlikeEntry(w, w', index, result, a[i], b[j]);
    }
  }

  /** A value and the form it is written in are equal. */
  lemma {:induction false} CanonIsAlike(w: World, t: Type, v: Val)
    requires HasType(t, v)
    ensures Alike(v, Canon(w, t, v))
    decreases v
  {
    hide Sorted, CanonTable, EntryHas, ElemHas, AlikeMaybe, AlikeEntries, CanonMaybe;
    match t {
      case TRecord(fields) =>
        forall i | 0 <= i < |v.fields| ensures AlikeMaybe(v.fields[i], CanonFields(w, fields, v.fields)[i]) {
          CanonIsAlikeMaybe(w, fields[i].t, v.fields[i]);
        }
      case TVector(elem) =>
        forall i | 0 <= i < |v.elems| ensures AlikeMaybe(v.elems[i], CanonElems(w, elem, v.elems)[i]) {
          CanonIsAlikeMaybe(w, elem, v.elems[i]);
        }
      case TList(types) =>
        CanonIsAlikeList(w, types, v.vals);
      case TTable(index, result) =>
        CanonIsAlikeTable(w, index, result, v.entries);
      case _ =>
    }
  }

  lemma {:induction false} CanonIsAlikeMaybe(w: World, t: Type, o: Maybe)
    requires ElemHas(t, o)
    ensures AlikeMaybe(o, CanonMaybe(w, t, o))
    decreases o
  {
    hide Canon, HasType, Alike;
    if o.Just? {
      CanonIsAlike(w, t, o.v);
    }
  }

  lemma {:induction false} CanonIsAlikeList(w: World, types: seq<Type>, vs: seq<Val>)
    requires ListHas(types, vs)
    ensures AlikeList(vs, CanonList(w, types, vs))
    decreases vs
  {
    hide Canon, HasType, Alike;
    forall i | 0 <= i < |vs| ensures Alike(vs[i], CanonList(w, types, vs)[i]) {
      CanonIsAlike(w, types[i], vs[i]);
    }
  }

  lemma {:induction false} CanonIsAlikeEntry(w: World, index: seq<Type>, result: Yield, e: Entry)
    requires EntryHas(index, result, e)
    ensures AlikeEntry(e, CanonEntry(w, index, result, e))
    decreases e
  {
    hide CanonList, CanonMaybe, ListHas, AlikeList, HasType;
    CanonIsAlikeList(w, index, e.index);
    if result.YieldOf? {
      CanonIsAlikeMaybe(w, result.t, e.result);
    }
  }

  lemma {:induction false} CanonIsAlikeTable(w: World, index: seq<Type>, result: Yield, es: seq<Entry>)
    requires forall i :: 0 <= i < |es| ==> EntryHas(index, result, es[i])
    ensures AlikeEntries(es, CanonTable(w, index, result, es))
    decreases es
  {
    hide CanonEntry, EntryHas, ListHas, Sorted;
    var cs := CanonEntries(w, index, result, es);
    var sorted := Sorted(w, index, cs);
    forall i | 0 <= i < |es| ensures HasAlike(es[i], sorted) {
      CanonIsAlikeEntry(w, index, result, es[i]);
      assert cs[i] in sorted;
      var j :| 0 <= j < |sorted| && sorted[j] == cs[i];
      assert AlikeEntry(es[i], sorted[j]);
    }
  }

  // ---------------------------------------------------------------- functions in the written form

  /** Writing a table in another order brings in no new functions. */
  lemma {:induction false} CanonCovered(w: World, funcs: seq<nat>, t: Type, v: Val)
    requires HasType(t, v) && Covers(funcs, v)
    ensures Covers(funcs, Canon(w, t, v))
    decreases v
  {
    hide Sorted, CanonTable, EntryHas, ElemHas, CoversMaybe, CoversEntry, CanonMaybe;
    match t {
      case TRecord(fields) =>
        forall i | 0 <= i < |v.fields| ensures CoversMaybe(funcs, CanonFields(w, fields, v.fields)[i]) {
          CanonCoveredMaybe(w, funcs, fields[i].t, v.fields[i]);
        }
      case TVector(elem) =>
        forall i | 0 <= i < |v.elems| ensures CoversMaybe(funcs, CanonElems(w, elem, v.elems)[i]) {
          CanonCoveredMaybe(w, funcs, elem, v.elems[i]);
        }
      case TList(types) =>
        CanonCoveredList(w, funcs, types, v.vals);
      case TTable(index, result) =>
        CanonCoveredTable(w, funcs, index, result, v.entries);
      case _ =>
    }
  }

  lemma {:induction false} CanonCoveredMaybe(w: World, funcs: seq<nat>, t: Type, o: Maybe)
    requires ElemHas(t, o) && CoversMaybe(funcs, o)
    ensures CoversMaybe(funcs, CanonMaybe(w, t, o))
    decreases o
  {
    hide Canon, HasType, Covers;
    if o.Just? {
      CanonCovered(w, funcs, t, o.v);
    }
  }

  lemma {:induction false} CanonCoveredList(w: World, funcs: seq<nat>, types: seq<Type>, vs: seq<Val>)
    requires ListHas(types, vs) && CoversList(funcs, vs)
    ensures CoversList(funcs, CanonList(w, types, vs))
    decreases vs
  {
    hide Canon, HasType, Covers;
    forall i | 0 <= i < |vs| ensures Covers(funcs, CanonList(w, types, vs)[i]) {
      CanonCovered(w, funcs, types[i], vs[i]);
    }
  }

  lemma {:induction false} CanonCoveredEntry(w: World, funcs: seq<nat>, index: seq<Type>, result: Yield, e: Entry)
    requires EntryHas(index, result, e) && CoversEntry(funcs, e)
    ensures CoversEntry(funcs, CanonEntry(w, index, result, e))
    decreases e
  {
    hide CanonList, CanonMaybe, ListHas, CoversList, HasType;
    CanonCoveredList(w, funcs, index, e.index);
    if result.YieldOf? {
      CanonCoveredMaybe(w, funcs, result.t, e.result);
    }
  }

  lemma {:induction false} CanonCoveredTable(w: World, funcs: seq<nat>, index: seq<Type>, result: Yield, es: seq<Entry>)
    requires forall i :: 0 <= i < |es| ==> EntryHas(index, result, es[i]) && CoversEntry(funcs, es[i])
    ensures forall i :: 0 <= i < |CanonTable(w, index, result, es)| ==>
            CoversEntry(funcs, CanonTable(w, index, result, es)[i])
    decreases es
  {
    hide CanonEntry, EntryHas, ListHas, Sorted, CoversEntry;
    var cs := CanonEntries(w, index, result, es);
    var sorted := Sorted(w, index, cs);
    forall i | 0 <= i < |sorted| ensures CoversEntry(funcs, sorted[i]) {
      assert sorted[i] in sorted;
      var j :| 0 <= j < |cs| && cs[j] == sorted[i];
      CanonCoveredEntry(w, funcs, index, result, es[j]);
    }
  }
}
