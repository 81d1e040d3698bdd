/** A pass over a key's values. For an inner table it takes the stored keys in order, makes the index of
    each anew from its key, and looks the yield up by a key made for that. What was stored once and what
    is made anew may differ in bytes nobody wrote. */
module CompPass {
  import opened Options
  import opened Octet
  import opened HashBytes
  import opened CompVals
  import opened CompOrder
  import opened CompKeys
  import opened CompCanon
  import opened CompWhole
  import opened CompAgain

  /** The unwritten bytes a pass meets: in the keys of the value's own tables at 0, in the keys of the
      tables inside indices it makes anew, and in the keys it looks up by, at 1, and so on inwards. */
  type Pass = nat -> World

  // ---------------------------------------------------------------- lookups

  /** The entry whose stored key is the given one. */
  function Lookup(w: World, index: seq<Type>, result: Yield, es: seq<Entry>, key: seq<Byte>): (r: Option<nat>)
    requires TabOk(Tab(index, result, es))
    ensures r.Some? ==> r.value < |es| && ListHas(index, es[r.value].index)
    ensures r.Some? ==> StoredKey(w, index, CanonList(w, index, es[r.value].index)) == key
    ensures r.None? ==> forall j :: 0 <= j < |es| ==>
              ListHas(index, es[j].index) && StoredKey(w, index, CanonList(w, index, es[j].index)) != key
    decreases |es|
  {
    if es == [] then None
    else
      var n := |es| - 1;
      assert EntryHas(index, result, es[n]);
      if StoredKey(w, index, CanonList(w, index, es[n].index)) == key then Some(n)
      else Lookup(w, index, result, es[..n], key)
  }

  // ---------------------------------------------------------------- what a pass writes

  function Form(g: Pass, d: nat, t: Type, v: Val): (r: Val)
    requires HasType(t, v)
    ensures HasType(t, r)
    decreases t, 1
  {
    match t
    case TRecord(fields) => Record(FormFields(g, d, fields, v.fields))
    case TVector(elem) => Vector(FormElems(g, d, elem, v.elems))
    case TList(types) => List(FormList(g, d, types, v.vals))
    case TTable(index, result) => Table(FormTable(g, d, t, v.entries))
    case _ => v
  }

  function FormMaybe(g: Pass, d: nat, t: Type, o: Maybe): (r: Maybe)
    requires ElemHas(t, o)
    ensures ElemHas(t, r) && (r.Just? <==> o.Just?)
    decreases t, 2
  {
    if o.Just? then Just(Form(g, d, t, o.v)) else Absent
  }

  function FormFields(g: Pass, d: nat, fields: seq<Field>, os: seq<Maybe>): (r: seq<Maybe>)
    requires FieldsHave(fields, os)
    ensures FieldsHave(fields, r)
    decreases fields, 0
  {
    seq(|os|, i requires 0 <= i < |os| => FormField(g, d, fields[i], os[i]))
  }

  function FormField(g: Pass, d: nat, f: Field, o: Maybe): (r: Maybe)
    requires ElemHas(f.t, o)
    ensures ElemHas(f.t, r) && (r.Just? <==> o.Just?)
    decreases f, 0
  {
    FormMaybe(g, d, f.t, o)
  }

  function FormElems(g: Pass, d: nat, elem: Type, os: seq<Maybe>): (r: seq<Maybe>)
    requires forall i :: 0 <= i < |os| ==> ElemHas(elem, os[i])
    ensures |r| == |os| && forall i :: 0 <= i < |r| ==> ElemHas(elem, r[i])
    decreases elem, 3
  {
    seq(|os|, i requires 0 <= i < |os| => FormMaybe(g, d, elem, os[i]))
  }

  function FormList(g: Pass, d: nat, types: seq<Type>, vs: seq<Val>): (r: seq<Val>)
    requires ListHas(types, vs)
    ensures ListHas(types, r) && |r| == |vs|
    decreases types, 0
  {
    seq(|vs|, i requires 0 <= i < |vs| => Form(g, d, types[i], vs[i]))
  }

  /** The key made to look up the yield of an entry: the index is made anew from the stored key. */
  function Probe(g: Pass, d: nat, index: seq<Type>, vs: seq<Val>): seq<Byte>
    requires ListHas(index, vs)
    decreases index, 1
  {
    StoredKey(g(d + 1), index, FormList(g, d + 1, index, CanonList(g(d), index, vs)))
  }

  /** The entry the lookup of entry i's yield finds. */
  function Hit(g: Pass, d: nat, t: Type, es: seq<Entry>, i: nat): (r: Option<nat>)
    requires t.TTable? && TabOk(Tab(t.index, t.result, es)) && i < |es|
    ensures r.Some? ==> r.value < |es|
    decreases t, 0, 0
  {
    assert EntryHas(t.index, t.result, es[i]);
    Lookup(g(d), t.index, t.result, es, Probe(g, d, t.index, es[i].index))
  }

  /** The entry as stored, with the yield found; with its own where none is found and nothing can be
      written. */
  function Fetched(g: Pass, d: nat, t: Type, es: seq<Entry>, i: nat): (r: Entry)
    requires t.TTable? && TabOk(Tab(t.index, t.result, es)) && i < |es|
    ensures EntryHas(t.index, t.result, r)
    decreases t, 0, 1
  {
    assert EntryHas(t.index, t.result, es[i]);
    var hit := Hit(g, d, t, es, i);
    var from := if hit.Some? then es[hit.value] else es[i];
    assert EntryHas(t.index, t.result, from);
    Entry(CanonList(g(d), t.index, es[i].index),
          if t.result.YieldOf? then FormMaybe(g, d, t.result.t, from.result) else Absent)
  }

  function FetchedAll(g: Pass, d: nat, t: Type, es: seq<Entry>): (r: seq<Entry>)
    requires t.TTable? && TabOk(Tab(t.index, t.result, es))
    ensures |r| == |es| && TabOk(Tab(t.index, t.result, r)) && Indexed(t.index, r)
    decreases t, 0, 2
  {
    var r := seq(|es|, i requires 0 <= i < |es| => Fetched(g, d, t, es, i));
    assert forall i :: 0 <= i < |r| ==> EntryHas(t.index, t.result, r[i]);
    r
  }

  /** The entry as written, its index made anew. */
  function Renewed(g: Pass, d: nat, t: Type, e: Entry): (r: Entry)
    requires t.TTable? && EntryHas(t.index, t.result, e)
    ensures EntryHas(t.index, t.result, r)
    decreases t, 0, 0
  {
    Entry(FormList(g, d + 1, t.index, e.index), e.result)
  }

  function FormTable(g: Pass, d: nat, t: Type, es: seq<Entry>): (r: seq<Entry>)
    requires t.TTable? && TabOk(Tab(t.index, t.result, es))
    ensures |r| == |es| && TabOk(Tab(t.index, t.result, r))
    decreases t, 0, 3
  {
    var sorted := Sorted(g(d), t.index, FetchedAll(g, d, t, es));
    assert forall i :: 0 <= i < |sorted| ==> sorted[i] in sorted && EntryHas(t.index, t.result, sorted[i]);
    seq(|sorted|, i requires 0 <= i < |sorted| => Renewed(g, d, t, sorted[i]))
  }

  // ---------------------------------------------------------------- whether the pass finds every yield

  ghost predicate Gets(g: Pass, d: nat, t: Type, v: Val)
    requires HasType(t, v)
    decreases t, 1
  {
    match t
    case TRecord(fields) => GetsFields(g, d, fields, v.fields)
    case TVector(elem) => forall i :: 0 <= i < |v.elems| ==> GetsMaybe(g, d, elem, v.elems[i])
    case TList(types) => GetsList(g, d, types, v.vals)
    case TTable(index, result) => GetsEntries(g, d, t, v.entries)
    case _ => true
  }

  ghost predicate GetsMaybe(g: Pass, d: nat, t: Type, o: Maybe)
    requires ElemHas(t, o)
    decreases t, 2
  {
    o.Just? ==> Gets(g, d, t, o.v)
  }

  ghost predicate GetsFields(g: Pass, d: nat, fields: seq<Field>, os: seq<Maybe>)
    requires FieldsHave(fields, os)
    decreases fields, 0
  {
    forall i :: 0 <= i < |os| ==> GetsField(g, d, fields[i], os[i])
  }

  ghost predicate GetsField(g: Pass, d: nat, f: Field, o: Maybe)
    requires ElemHas(f.t, o)
    decreases f, 0
  {
    GetsMaybe(g, d, f.t, o)
  }

  ghost predicate GetsList(g: Pass, d: nat, types: seq<Type>, vs: seq<Val>)
    requires ListHas(types, vs)
    decreases types, 0
  {
    forall i :: 0 <= i < |vs| ==> Gets(g, d, types[i], vs[i])
  }

  ghost predicate GetsEntries(g: Pass, d: nat, t: Type, es: seq<Entry>)
    requires t.TTable? && TabOk(Tab(t.index, t.result, es))
    decreases t, 0, 1
  {
    forall i :: 0 <= i < |es| ==> GetsEntry(g, d, t, es, i)
  }

  /** The index can be written, and the yield is found and can be written. */
  ghost predicate GetsEntry(g: Pass, d: nat, t: Type, es: seq<Entry>, i: nat)
    requires t.TTable? && TabOk(Tab(t.index, t.result, es)) && i < |es|
    decreases t, 0, 0
  {
    assert EntryHas(t.index, t.result, es[i]);
    && GetsList(g, d + 1, t.index, CanonList(g(d), t.index, es[i].index))
    && (t.result.YieldOf? ==>
          var hit := Hit(g, d, t, es, i);
          hit.Some? &&
              (assert EntryHas(t.index, t.result, es[hit.value]); GetsMaybe(g, d, t.result.t, es[hit.value].result)))
  }

  /** One level of the recursion. */
  lemma GetsTurn(g: Pass, d: nat, t: Type, v: Val)
    requires HasType(t, v)
    ensures t.TRecord? ==>
            FieldsHave(t.fields, v.fields) && (Gets(g, d, t, v) <==> GetsFields(g, d, t.fields, v.fields))
    ensures t.TVector? ==>
              && (forall i :: 0 <= i < |v.elems| ==> ElemHas(t.elem, v.elems[i]))
              && (Gets(g, d, t, v) <==> forall i :: 0 <= i < |v.elems| ==> GetsMaybe(g, d, t.elem, v.elems[i]))
    ensures t.TList? ==> ListHas(t.types, v.vals) && (Gets(g, d, t, v) <==> GetsList(g, d, t.types, v.vals))
    ensures t.TTable? ==>
              && TabOk(Tab(t.index, t.result, v.entries))
              && (Gets(g, d, t, v) <==> GetsEntries(g, d, t, v.entries))
    ensures !t.TRecord? && !t.TVector? && !t.TList? && !t.TTable? ==> Gets(g, d, t, v)
  {
    hide FieldsHave, ListHas, EntryHas, ElemHas;
  }

  // ---------------------------------------------------------------- passes that write the canonical form

  /** All of one run: only unwritten bytes differ. */
  ghost predicate Lined(g: Pass) { forall i: nat, j: nat :: SameRun(g(i), g(j)) }

  /** No unwritten bytes change from level d on. */
  ghost predicate Still(g: Pass, d: nat) { forall i: nat, j: nat :: d <= i && d <= j ==> g(i) == g(j) }

  /** A table which such a pass writes as it stands. */
  ghost function Sure(g: Pass, d: nat): Tab -> bool { x => Keyed(g(d), x) && (Still(g, d) || Fixed(g(d), x)) }

  lemma SureIs(g: Pass, d: nat, types: seq<Type>, vs: seq<Val>)
    requires ListHas(types, vs)
    ensures AllList(Sure(g, d), types, vs) <==>
            AllList(Keys(g(d)), types, vs) && (Still(g, d) || AllList(Fixes(g(d)), types, vs))
  {
    hide OccursList, ListHas, Keyed, Fixed, Still;
    if AllList(Sure(g, d), types, vs) {
      forall x | OccursList(x, types, vs) ensures Keyed(g(d), x) && (Still(g, d) || Fixed(g(d), x)) {
        assert Sure(g, d)(x);
      }
    } else {
      var x :| OccursList(x, types, vs) && !Sure(g, d)(x);
      assert !Keys(g(d))(x) || (!Still(g, d) && !Fixes(g(d))(x));
    }
  }

  lemma SureAgain(g: Pass, d: nat, types: seq<Type>, vs: seq<Val>)
    requires ListHas(types, vs) && Lined(g) && AllList(Sure(g, d), types, vs)
    ensures var cs := CanonList(g(d), types, vs);
            AllList(Sure(g, d + 1), types, cs) && CanonList(g(d + 1), types, cs) == cs
  {
    hide AllList, ListHas, CanonList, Keys, Fixes, Sure, Firms;
    var cs := CanonList(g(d), types, vs);
    SureIs(g, d, types, vs);
    SureIs(g, d + 1, types, cs);
    assert SameRun(g(d), g(d + 1));
    if Still(g, d) {
      assert Still(g, d + 1);
      assert g(d) == g(d + 1);
      KeyedAgainList(g(d), types, vs);
      CanonAgain(g(d), g(d), types, vs);
    } else {
      FixedAgain(g(d), g(d + 1), types, vs);
    }
  }

  /** Such a pass writes the canonical form. */
  lemma {:induction false} FormIsCanon(g: Pass, d: nat, t: Type, v: Val)
    requires HasType(t, v) && Lined(g) && All(Sure(g, d), t, v)
    ensures Form(g, d, t, v) == Canon(g(d), t, v)
    decreases t, 1
  {
    hide All, AllMaybe, AllList, AllEntry, CanonMaybe, CanonTable, EntryHas, ElemHas, ListHas, Sorted, Keyed, Fixed;
    hide Still;
    hide FormMaybe, FormTable, FormField;
    var c, f := Canon(g(d), t, v), Form(g, d, t, v);
    match t {
      case TRecord(fields) =>
        AllRecord(Sure(g, d), fields, v);
        assert c.fields == CanonFields(g(d), fields, v.fields) && f.fields == FormFields(g, d, fields, v.fields);
        forall i | 0 <= i < |fields| ensures f.fields[i] == c.fields[i] {
          FormIsCanonField(g, d, fields[i], v.fields[i]);
        }
      case TVector(elem) =>
        AllVector(Sure(g, d), elem, v);
        assert c.elems == CanonElems(g(d), elem, v.elems) && f.elems == FormElems(g, d, elem, v.elems);
        forall i | 0 <= i < |v.elems| ensures f.elems[i] == c.elems[i] {
          FormIsCanonMaybe(g, d, elem, v.elems[i]);
        }
      case TList(types) =>
        AllListed(Sure(g, d), types, v);
        FormIsCanonList(g, d, types, v.vals);
      case TTable(index, result) =>
        AllTable(Sure(g, d), index, result, v);
        FormIsCanonTable(g, d, t, v.entries);
      case _ =>
    }
  }

  lemma {:induction false} FormIsCanonMaybe(g: Pass, d: nat, t: Type, o: Maybe)
    requires ElemHas(t, o) && Lined(g) && AllMaybe(Sure(g, d), t, o)
    ensures FormMaybe(g, d, t, o) == CanonMaybe(g(d), t, o)
    decreases t, 2
  {
    hide All, AllMaybe, Canon, Form, HasType, Sure;
    AllIn(Sure(g, d), t, o);
    if o.Just? {
      FormIsCanon(g, d, t, o.v);
    }
  }

  lemma {:induction false} FormIsCanonField(g: Pass, d: nat, f: Field, o: Maybe)
    requires ElemHas(f.t, o) && Lined(g) && AllMaybe(Sure(g, d), f.t, o)
    ensures FormField(g, d, f, o) == CanonMaybe(g(d), f.t, o)
    decreases f, 0
  {
    hide AllMaybe, CanonMaybe, FormMaybe, ElemHas, Sure;
    FormIsCanonMaybe(g, d, f.t, o);
  }

  lemma {:induction false} FormIsCanonList(g: Pass, d: nat, types: seq<Type>, vs: seq<Val>)
    requires ListHas(types, vs) && Lined(g) && AllList(Sure(g, d), types, vs)
    ensures FormList(g, d, types, vs) == CanonList(g(d), types, vs)
    decreases types, 0
  {
    hide All, AllList, Canon, Form, HasType, Sure;
    AllVals(Sure(g, d), types, vs);
    forall i | 0 <= i < |vs| ensures Form(g, d, types[i], vs[i]) == Canon(g(d), types[i], vs[i]) {
      FormIsCanon(g, d, types[i], vs[i]);
    }
  }

  /** An index made anew from its stored key is written as it was. */
  lemma {:induction false} FormAnew(g: Pass, d: nat, index: seq<Type>, vs: seq<Val>)
    requires ListHas(index, vs) && Lined(g) && AllList(Sure(g, d), index, vs)
    ensures var cs := CanonList(g(d), index, vs); FormList(g, d + 1, index, cs) == cs
    decreases index, 1
  {
    hide AllList, CanonList, FormList, ListHas, Sure;
    SureAgain(g, d, index, vs);
    FormIsCanonList(g, d + 1, index, CanonList(g(d), index, vs));
  }

  lemma {:induction false} FormIsCanonTable(g: Pass, d: nat, t: Type, es: seq<Entry>)
    requires t.TTable? && TabOk(Tab(t.index, t.result, es)) && Lined(g) && Sure(g, d)(Tab(t.index, t.result, es))
    requires forall i :: 0 <= i < |es| ==> AllEntry(Sure(g, d), t.index, t.result, es[i])
    ensures FormTable(g, d, t, es) == CanonTable(g(d), t.index, t.result, es)
    decreases t, 0
  {
    hide AllEntry, AllList, AllMaybe, CanonEntry, CanonList, CanonMaybe, EntryHas, Sorted, ListHas, Fetched, Renewed;
    hide Keyed, Fixed;
    hide Still;
    var all, cs := FetchedAll(g, d, t, es), CanonEntries(g(d), t.index, t.result, es);
    forall i | 0 <= i < |es| ensures all[i] == cs[i] && Renewed(g, d, t, all[i]) == all[i] {
      assert AllEntry(Sure(g, d), t.index, t.result, es[i]);
      AnewEntry(g, d, t, es, i);
    }
    assert all == cs;
    var sorted := CanonTable(g(d), t.index, t.result, es);
    forall k | 0 <= k < |sorted| ensures Renewed(g, d, t, sorted[k]) == sorted[k] {
      assert sorted[k] in cs;
    }
  }

  lemma {:induction false} AnewEntry(g: Pass, d: nat, t: Type, es: seq<Entry>, i: nat)
    requires t.TTable? && TabOk(Tab(t.index, t.result, es)) && Lined(g) && i < |es|
    requires Keyed(g(d), Tab(t.index, t.result, es))
    requires forall i :: 0 <= i < |es| ==> AllEntry(Sure(g, d), t.index, t.result, es[i])
    ensures Fetched(g, d, t, es, i) == CanonEntry(g(d), t.index, t.result, es[i])
    ensures Renewed(g, d, t, Fetched(g, d, t, es, i)) == Fetched(g, d, t, es, i)
    decreases t, 0, 0
  {
    hide AllEntry, AllList, AllMaybe, CanonList, CanonMaybe, FormMaybe, FormList, ListHas, HasType, Sure, Keyed, Hit;
    hide Probe;
    var e := es[i];
    assert EntryHas(t.index, t.result, e);
    AllParts(Sure(g, d), t.index, t.result, e);
    FormAnew(g, d, t.index, e.index);
    OwnHit(g, d, t, es, i);
    if t.result.YieldOf? {
      FormIsCanonMaybe(g, d, t.result.t, e.result);
    }
  }

  /** Whole keys of different written forms differ, whatever their unwritten bytes. */
  lemma KeyTellsForm(w: World, w': World, types: seq<Type>, a: seq<Val>, b: seq<Val>)
    requires ListHas(types, a) && ListHas(types, b) && w.inner == w'.inner && |w.inner(types)| <= TWO32
    requires CoversList(w.inner(types), a) && CoversList(w.inner(types), b)
    requires StoredKey(w', types, CanonList(w, types, a)) == StoredKey(w, types, CanonList(w, types, b))
    ensures CanonList(w, types, a) == CanonList(w, types, b)
  {
    hide CanonList, ListHas, StoredKey, CoversList, DecodeKey;
    CanonCoveredList(w, w.inner(types), types, a);
    CanonCoveredList(w, w.inner(types), types, b);
    StoredRecovers(w, types, CanonList(w, types, b));
    StoredRecovers(w', types, CanonList(w, types, a));
  }

  /** A lookup finds no other entry. */
  lemma OwnHit(g: Pass, d: nat, t: Type, es: seq<Entry>, i: nat)
    requires t.TTable? && TabOk(Tab(t.index, t.result, es)) && Lined(g) && i < |es| &&
             Keyed(g(d), Tab(t.index, t.result, es))
    requires ListHas(t.index, es[i].index)
    requires var cs := CanonList(g(d), t.index, es[i].index); FormList(g, d + 1, t.index, cs) == cs
    ensures Hit(g, d, t, es, i).Some? ==> Hit(g, d, t, es, i).value == i
  {
    hide CanonList, FormList, ListHas, StoredKey, AlikeList, CoversList, EntryHas, Lookup;
    var hit := Hit(g, d, t, es, i);
    if hit.Some? {
      var j, w, w1 := hit.value, g(d), g(d + 1);
      assert SameRun(w, w1);
      var a, b := es[i].index, es[j].index;
      assert Probe(g, d, t.index, a) == StoredKey(w1, t.index, CanonList(w, t.index, a));
      KeyTellsForm(w, w1, t.index, a, b);
      CanonAlikeList(w, w, t.index, a, b);
      CanonAlikeList(w, w, t.index, b, a);
    }
  }

  // ---------------------------------------------------------------- two passes over the same tables

  /** The tables inside the table's indices are in the same order in all runs like this one. */
  ghost predicate Inward(w: World, x: Tab) { Deeper(Fixes(w))(x) }

  ghost function Settles(w: World): Tab -> bool { x => Keyed(w, x) && Inward(w, x) }

  /** Two passes that meet the same stored keys write the same form, unless unwritten bytes decide the order
      of a table inside an index, which each makes anew. */
  lemma {:induction false} FormsAgree(r: Pass, g: Pass, d: nat, t: Type, v: Val)
    requires HasType(t, v) && Lined(r) && Lined(g) && r(d) == g(d) && All(Settles(g(d)), t, v)
    ensures Form(r, d, t, v) == Form(g, d, t, v)
    decreases t, 1
  {
    hide All, AllMaybe, AllList, AllEntry, EntryHas, ElemHas, ListHas, Sorted, Keyed, Inward;
    hide FormMaybe, FormTable, FormField;
    var e, f := Form(r, d, t, v), Form(g, d, t, v);
    match t {
      case TRecord(fields) =>
        AllRecord(Settles(g(d)), fields, v);
        assert e.fields == FormFields(r, d, fields, v.fields) && f.fields == FormFields(g, d, fields, v.fields);
        forall i | 0 <= i < |fields| ensures e.fields[i] == f.fields[i] {
          FormsAgreeField(r, g, d, fields[i], v.fields[i]);
        }
      case TVector(elem) =>
        AllVector(Settles(g(d)), elem, v);
        assert e.elems == FormElems(r, d, elem, v.elems) && f.elems == FormElems(g, d, elem, v.elems);
        forall i | 0 <= i < |v.elems| ensures e.elems[i] == f.elems[i] {
          FormsAgreeMaybe(r, g, d, elem, v.elems[i]);
        }
      case TList(types) =>
        AllListed(Settles(g(d)), types, v);
        FormsAgreeList(r, g, d, types, v.vals);
      case TTable(index, result) =>
        AllTable(Settles(g(d)), index, result, v);
        FormsAgreeTable(r, g, d, t, v.entries);
      case _ =>
    }
  }

  lemma {:induction false} FormsAgreeMaybe(r: Pass, g: Pass, d: nat, t: Type, o: Maybe)
    requires ElemHas(t, o) && Lined(r) && Lined(g) && r(d) == g(d) && AllMaybe(Settles(g(d)), t, o)
    ensures FormMaybe(r, d, t, o) == FormMaybe(g, d, t, o)
    decreases t, 2
  {
    hide All, AllMaybe, Form, HasType, Settles;
    AllIn(Settles(g(d)), t, o);
    if o.Just? {
      FormsAgree(r, g, d, t, o.v);
    }
  }

  lemma {:induction false} FormsAgreeField(r: Pass, g: Pass, d: nat, f: Field, o: Maybe)
    requires ElemHas(f.t, o) && Lined(r) && Lined(g) && r(d) == g(d) && AllMaybe(Settles(g(d)), f.t, o)
    ensures FormField(r, d, f, o) == FormField(g, d, f, o)
    decreases f, 0
  {
    hide AllMaybe, FormMaybe, ElemHas, Settles;
    FormsAgreeMaybe(r, g, d, f.t, o);
  }

  lemma {:induction false} FormsAgreeList(r: Pass, g: Pass, d: nat, types: seq<Type>, vs: seq<Val>)
    requires ListHas(types, vs) && Lined(r) && Lined(g) && r(d) == g(d) && AllList(Settles(g(d)), types, vs)
    ensures FormList(r, d, types, vs) == FormList(g, d, types, vs)
    decreases types, 0
  {
    hide All, AllList, Form, HasType, Settles;
    AllVals(Settles(g(d)), types, vs);
    forall i | 0 <= i < |vs| ensures Form(r, d, types[i], vs[i]) == Form(g, d, types[i], vs[i]) {
      FormsAgree(r, g, d, types[i], vs[i]);
    }
  }

  lemma {:induction false} FormsAgreeTable(r: Pass, g: Pass, d: nat, t: Type, es: seq<Entry>)
    requires t.TTable? && TabOk(Tab(t.index, t.result, es)) && Lined(r) && Lined(g) && r(d) == g(d)
    requires Settles(g(d))(Tab(t.index, t.result, es))
    requires forall i :: 0 <= i < |es| ==> AllEntry(Settles(g(d)), t.index, t.result, es[i])
    ensures FormTable(r, d, t, es) == FormTable(g, d, t, es)
    decreases t, 0, 1
  {
    hide AllEntry, AllList, HasType, Sorted, ListHas, Fetched, Renewed, Keyed, CanonList;
    var x := Tab(t.index, t.result, es);
    var a, b := FetchedAll(r, d, t, es), FetchedAll(g, d, t, es);
    forall i | 0 <= i < |es|
      ensures a[i] == b[i] && Renewed(r, d, t, b[i]) == b[i] && Renewed(g, d, t, b[i]) == b[i]
    {
      assert AllEntry(Settles(g(d)), t.index, t.result, es[i]);
      assert AllList(Fixes(g(d)), x.index, x.entries[i].index);
      FormsAgreeEntry(r, g, d, t, es, i);
    }
    assert a == b;
    var sorted := Sorted(g(d), t.index, b);
    forall k | 0 <= k < |sorted|
      ensures EntryHas(t.index, t.result, sorted[k]) && Renewed(r, d, t, sorted[k]) == Renewed(g, d, t, sorted[k])
    {
      assert sorted[k] in sorted && sorted[k] in b;
    }
  }

  lemma {:induction false} FormsAgreeEntry(r: Pass, g: Pass, d: nat, t: Type, es: seq<Entry>, i: nat)
    requires t.TTable? && TabOk(Tab(t.index, t.result, es)) && Lined(r) && Lined(g) && r(d) == g(d) && i < |es|
    requires Keyed(g(d), Tab(t.index, t.result, es)) && EntryHas(t.index, t.result, es[i])
    requires AllEntry(Settles(g(d)), t.index, t.result, es[i]) && AllList(Fixes(g(d)), t.index, es[i].index)
    ensures Fetched(r, d, t, es, i) == Fetched(g, d, t, es, i)
    ensures var e := Fetched(g, d, t, es, i); Renewed(r, d, t, e) == e && Renewed(g, d, t, e) == e
    decreases t, 0, 0
  {
    hide AllEntry, AllList, AllMaybe, CanonList, FormMaybe, FormList, ListHas, HasType, Sure, Keyed, Hit, Probe;
    hide Settles, Keys, Fixes;
    var e := es[i];
    AllParts(Settles(g(d)), t.index, t.result, e);
    SettledKeys(g(d), t.index, e.index);
    SureIs(g, d, t.index, e.index);
    SureIs(r, d, t.index, e.index);
    FormAnew(g, d, t.index, e.index);
    FormAnew(r, d, t.index, e.index);
    OwnHit(g, d, t, es, i);
    OwnHit(r, d, t, es, i);
    if t.result.YieldOf? {
      FormsAgreeMaybe(r, g, d, t.result.t, e.result);
    }
  }

  lemma SettledKeys(w: World, types: seq<Type>, vs: seq<Val>)
    requires ListHas(types, vs) && AllList(Settles(w), types, vs)
    ensures AllList(Keys(w), types, vs)
  {
    hide OccursList, ListHas, Keyed, Inward;
    forall x | OccursList(x, types, vs) ensures Keys(w)(x) {
      assert Settles(w)(x);
    }
  }

  // ---------------------------------------------------------------- a pass writes an equal value

  /** A pass brings in no new functions. */
  lemma {:induction false} FormCovered(g: Pass, funcs: seq<nat>, d: nat, t: Type, v: Val)
    requires HasType(t, v) && Covers(funcs, v)
    ensures Covers(funcs, Form(g, d, t, v))
    decreases t, 1
  {
    hide EntryHas, ElemHas, ListHas, Sorted, CoversMaybe, CoversList, CoversEntry, FormMaybe, FormTable, FormField;
    var f := Form(g, d, t, v);
    match t {
      case TRecord(fields) =>
        assert f.fields == FormFields(g, d, fields, v.fields);
        forall i | 0 <= i < |fields| ensures CoversMaybe(funcs, f.fields[i]) {
          FormCoveredField(g, funcs, d, fields[i], v.fields[i]);
        }
      case TVector(elem) =>
        assert f.elems == FormElems(g, d, elem, v.elems);
        forall i | 0 <= i < |v.elems| ensures CoversMaybe(funcs, f.elems[i]) {
          FormCoveredMaybe(g, funcs, d, elem, v.elems[i]);
        }
      case TList(types) =>
        FormCoveredList(g, funcs, d, types, v.vals);
      case TTable(index, result) =>
        FormCoveredTable(g, funcs, d, t, v.entries);
        assert f.entries == FormTable(g, d, t, v.entries);
      case _ =>
    }
  }

  lemma {:induction false} FormCoveredMaybe(g: Pass, funcs: seq<nat>, d: nat, t: Type, o: Maybe)
    requires ElemHas(t, o) && CoversMaybe(funcs, o)
    ensures CoversMaybe(funcs, FormMaybe(g, d, t, o))
    decreases t, 2
  {
    hide Form, HasType, Covers;
    if o.Just? {
      FormCovered(g, funcs, d, t, o.v);
    }
  }

  lemma {:induction false} FormCoveredField(g: Pass, funcs: seq<nat>, d: nat, f: Field, o: Maybe)
    requires ElemHas(f.t, o) && CoversMaybe(funcs, o)
    ensures CoversMaybe(funcs, FormField(g, d, f, o))
    decreases f, 0
  {
    hide FormMaybe, ElemHas, CoversMaybe;
    FormCoveredMaybe(g, funcs, d, f.t, o);
  }

  lemma {:induction false} FormCoveredList(g: Pass, funcs: seq<nat>, d: nat, types: seq<Type>, vs: seq<Val>)
    requires ListHas(types, vs) && CoversList(funcs, vs)
    ensures CoversList(funcs, FormList(g, d, types, vs))
    decreases types, 0
  {
    hide Form, HasType, Covers;
    forall i | 0 <= i < |vs| ensures Covers(funcs, FormList(g, d, types, vs)[i]) {
      FormCovered(g, funcs, d, types[i], vs[i]);
    }
  }

  lemma {:induction false} FormCoveredTable(g: Pass, funcs: seq<nat>, d: nat, t: Type, es: seq<Entry>)
    requires t.TTable? && TabOk(Tab(t.index, t.result, es)) && forall i :: 0 <= i < |es| ==> CoversEntry(funcs, es[i])
    ensures var r := FormTable(g, d, t, es); forall i :: 0 <= i < |r| ==> CoversEntry(funcs, r[i])
    decreases t, 0, 1
  {
    hide EntryHas, Sorted, ListHas, Fetched, Renewed, CoversEntry;
    var all, r := FetchedAll(g, d, t, es), FormTable(g, d, t, es);
    forall k | 0 <= k < |r| ensures CoversEntry(funcs, r[k]) {
      var e := Sorted(g(d), t.index, all)[k];
      assert e in Sorted(g(d), t.index, all) && e in all;
      var i :| 0 <= i < |all| && all[i] == e;
      FormCoveredEntry(g, funcs, d, t, es, i);
    }
  }

  lemma {:induction false} FormCoveredEntry(g: Pass, funcs: seq<nat>, d: nat, t: Type, es: seq<Entry>, i: nat)
    requires t.TTable? && TabOk(Tab(t.index, t.result, es)) && i < |es|
    requires forall i :: 0 <= i < |es| ==> CoversEntry(funcs, es[i])
    ensures CoversEntry(funcs, Renewed(g, d, t, Fetched(g, d, t, es, i)))
    decreases t, 0, 0
  {
    hide CanonList, FormMaybe, FormList, ListHas, HasType, CoversList, CoversMaybe, Hit;
    var e, hit := es[i], Hit(g, d, t, es, i);
    var from := if hit.Some? then es[hit.value] else e;
    assert EntryHas(t.index, t.result, e) && EntryHas(t.index, t.result, from) && CoversEntry(funcs, e) &&
           CoversEntry(funcs, from);
    CanonCoveredList(g(d), funcs, t.index, e.index);
    FormCoveredList(g, funcs, d + 1, t.index, CanonList(g(d), t.index, e.index));
    if t.result.YieldOf? {
      FormCoveredMaybe(g, funcs, d, t.result.t, from.result);
    } else {
      NothingCovered(funcs);
    }
  }

  lemma NothingCovered(funcs: seq<nat>)
    ensures CoversMaybe(funcs, Absent)
  {
  }

  /** What a pass writes is equal to the value, with the stored yields, if no table has equal indices. */
  lemma {:induction false} FormIsAlike(g: Pass, d: nat, t: Type, v: Val)
    requires HasType(t, v) && Lined(g) && All(Keys(g(d)), t, v)
    ensures Alike(v, Form(g, d, t, v))
    decreases t, 1
  {
    hide All, AllMaybe, AllList, AllEntry, EntryHas, ElemHas, ListHas, Sorted, Keyed, AlikeMaybe, AlikeList;
    hide AlikeEntries;
    hide FormMaybe, FormTable, FormField;
    var f := Form(g, d, t, v);
    match t {
      case TRecord(fields) =>
        AllRecord(Keys(g(d)), fields, v);
        assert f.fields == FormFields(g, d, fields, v.fields);
        forall i | 0 <= i < |fields| ensures AlikeMaybe(v.fields[i], f.fields[i]) {
          FormIsAlikeField(g, d, fields[i], v.fields[i]);
        }
      case TVector(elem) =>
        AllVector(Keys(g(d)), elem, v);
        assert f.elems == FormElems(g, d, elem, v.elems);
        forall i | 0 <= i < |v.elems| ensures AlikeMaybe(v.elems[i], f.elems[i]) {
          FormIsAlikeMaybe(g, d, elem, v.elems[i]);
        }
      case TList(types) =>
        AllListed(Keys(g(d)), types, v);
        FormIsAlikeList(g, d, types, v.vals);
      case TTable(index, result) =>
        AllTable(Keys(g(d)), index, result, v);
        FormIsAlikeTable(g, d, t, v.entries);
        assert f.entries == FormTable(g, d, t, v.entries);
      case _ =>
    }
  }

  lemma {:induction false} FormIsAlikeMaybe(g: Pass, d: nat, t: Type, o: Maybe)
    requires ElemHas(t, o) && Lined(g) && AllMaybe(Keys(g(d)), t, o)
    ensures AlikeMaybe(o, FormMaybe(g, d, t, o))
    decreases t, 2
  {
    hide All, AllMaybe, Form, HasType, Alike, Keys;
    AllIn(Keys(g(d)), t, o);
    if o.Just? {
      FormIsAlike(g, d, t, o.v);
    }
  }

  lemma {:induction false} FormIsAlikeField(g: Pass, d: nat, f: Field, o: Maybe)
    requires ElemHas(f.t, o) && Lined(g) && AllMaybe(Keys(g(d)), f.t, o)
    ensures AlikeMaybe(o, FormField(g, d, f, o))
    decreases f, 0
  {
    hide AllMaybe, FormMaybe, ElemHas, AlikeMaybe, Keys;
    FormIsAlikeMaybe(g, d, f.t, o);
  }

  lemma {:induction false} FormIsAlikeList(g: Pass, d: nat, types: seq<Type>, vs: seq<Val>)
    requires ListHas(types, vs) && Lined(g) && AllList(Keys(g(d)), types, vs)
    ensures AlikeList(vs, FormList(g, d, types, vs))
    decreases types, 0
  {
    hide All, AllList, Form, HasType, Alike, Keys;
    AllVals(Keys(g(d)), types, vs);
    forall i | 0 <= i < |vs| ensures Alike(vs[i], FormList(g, d, types, vs)[i]) {
      FormIsAlike(g, d, types[i], vs[i]);
    }
  }

  lemma {:induction false} FormIsAlikeTable(g: Pass, d: nat, t: Type, es: seq<Entry>)
    requires t.TTable? && TabOk(Tab(t.index, t.result, es)) && Lined(g) && Keyed(g(d), Tab(t.index, t.result, es))
    requires forall i :: 0 <= i < |es| ==> AllEntry(Keys(g(d)), t.index, t.result, es[i])
    ensures AlikeEntries(es, FormTable(g, d, t, es))
    decreases t, 0, 2
  {
    hide EntryHas, Sorted, ListHas, Fetched, Renewed, AllEntry, AlikeEntry, Keyed, Keys;
    var all, r := FetchedAll(g, d, t, es), FormTable(g, d, t, es);
    forall i | 0 <= i < |es| ensures HasAlike(es[i], r) {
      FormIsAlikeEntry(g, d, t, es, i);
      var sorted := Sorted(g(d), t.index, all);
      assert all[i] in sorted;
      var k :| 0 <= k < |sorted| && sorted[k] == all[i];
      assert r[k] == Renewed(g, d, t, sorted[k]);
      assert AlikeEntry(es[i], r[k]);
    }
  }

  lemma {:induction false} FormIsAlikeEntry(g: Pass, d: nat, t: Type, es: seq<Entry>, i: nat)
    requires t.TTable? && TabOk(Tab(t.index, t.result, es)) && Lined(g) && Keyed(g(d), Tab(t.index, t.result, es)) &&
             i < |es|
    requires forall i :: 0 <= i < |es| ==> AllEntry(Keys(g(d)), t.index, t.result, es[i])
    ensures AlikeEntry(es[i], Renewed(g, d, t, Fetched(g, d, t, es, i)))
    decreases t, 0, 1
  {
    hide AllEntry, AllList, AllMaybe, CanonList, FormMaybe, FormList, ListHas, HasType, AlikeList, AlikeMaybe, Keyed;
    hide Keys, Hit;
    var w, index, e := g(d), t.index, es[i];
    assert EntryHas(index, t.result, e) && AllEntry(Keys(w), index, t.result, e);
    AllParts(Keys(w), index, t.result, e);
    AnewAlike(g, d, index, e.index);
    var c := CanonList(w, index, e.index);
    CanonIsAlikeList(w, index, e.index);
    AlikeTransList(e.index, c, FormList(g, d + 1, index, c));
    if t.result.YieldOf? {
      HitsOwn(g, d, t, es, i);
      FormIsAlikeMaybe(g, d, t.result.t, e.result);
    } else {
      NothingAlike();
    }
  }

  lemma NothingAlike()
    ensures AlikeMaybe(Absent, Absent)
  {
  }

  lemma {:induction false} AnewAlike(g: Pass, d: nat, index: seq<Type>, vs: seq<Val>)
    requires ListHas(index, vs) && Lined(g) && AllList(Keys(g(d)), index, vs)
    ensures var c := CanonList(g(d), index, vs); AlikeList(c, FormList(g, d + 1, index, c))
    decreases index, 1
  {
    hide AllList, CanonList, FormList, ListHas, AlikeList, Keys;
    var c := CanonList(g(d), index, vs);
    assert SameRun(g(d), g(d + 1));
    KeyedAgainList(g(d), index, vs);
    KeysTooList(g(d), g(d + 1), index, c);
    FormIsAlikeList(g, d + 1, index, c);
  }

  /** A lookup never finds the yield of another entry. */
  lemma {:induction false} HitsOwn(g: Pass, d: nat, t: Type, es: seq<Entry>, i: nat)
    requires t.TTable? && TabOk(Tab(t.index, t.result, es)) && Lined(g) && Keyed(g(d), Tab(t.index, t.result, es)) &&
             i < |es|
    requires forall i :: 0 <= i < |es| ==> AllEntry(Keys(g(d)), t.index, t.result, es[i])
    ensures Hit(g, d, t, es, i).Some? ==> Hit(g, d, t, es, i).value == i
    decreases t, 0, 0
  {
    hide AllEntry, CanonList, FormList, ListHas, HasType, AlikeList, Keys, StoredKey, Lookup, DecodeKey, CoversList;
    var hit, w, w1, index := Hit(g, d, t, es, i), g(d), g(d + 1), t.index;
    if hit.Some? && hit.value != i {
      var j := hit.value;
      var a, b := es[i], es[j];
      assert EntryHas(index, t.result, a) && EntryHas(index, t.result, b) && SameRun(w, w1);
      assert AllEntry(Keys(w), index, t.result, a) && AllEntry(Keys(w), index, t.result, b);
      var c, c' := CanonList(w, index, a.index), CanonList(w, index, b.index);
      var f := FormList(g, d + 1, index, c);
      CanonCoveredList(w, w.inner(index), index, a.index);
      CanonCoveredList(w, w.inner(index), index, b.index);
      FormCoveredList(g, w.inner(index), d + 1, index, c);
      assert Probe(g, d, index, a.index) == StoredKey(w1, index, f);
      assert StoredKey(w, index, c') == Probe(g, d, index, a.index);
      StoredRecovers(w, index, c');
      StoredRecovers(w1, index, f);
      IndexKeys(w, index, t.result, a);
      AnewAlike(g, d, index, a.index);
      KeyedAgainEntry(w, index, t.result, a);
      KeyedAgainEntry(w, index, t.result, b);
      FormsApart(w, Tab(index, t.result, es), i, j);
    }
  }

  lemma IndexKeys(w: World, index: seq<Type>, result: Yield, e: Entry)
    requires EntryHas(index, result, e) && AllEntry(Keys(w), index, result, e)
    ensures AllList(Keys(w), index, e.index)
  {
    hide AllEntry, AllList, AllMaybe, ListHas, HasType, Keys;
    AllParts(Keys(w), index, result, e);
  }
}
