/** Keys: they always fit what is reserved for them, can be read back, and are equal exactly when the
    values they were made from are. */
module CompKeys {
  import opened Octet
  import opened HashBytes
  import opened CompVals
  import opened CompRound
  import opened CompOrder

  // ---------------------------------------------------------------- reserving and writing agree

  ghost predicate AllOk(ops: seq<Put>) { forall i :: 0 <= i < |ops| ==> PutOk(ops[i]) }

  /** A put that reserves exactly what it writes. */
  predicate Exact(p: Put) { |p.data| == p.room && (p.align == p.roomAlign || (p.align <= 1 && p.roomAlign <= 1)) }

  ghost predicate AllExact(ops: seq<Put>) { forall i :: 0 <= i < |ops| ==> Exact(ops[i]) }

  ghost predicate Sound(ops: seq<Put>, exact: bool) { AllOk(ops) && (exact ==> AllExact(ops)) }

  /** No vector occurs in a type. */
  ghost predicate NoVectors(t: Type)
    decreases t
  {
    match t
    case TRecord(fields) => forall i :: 0 <= i < |fields| ==> NoVectorsField(fields[i])
    case TVector(_) => false
    case TList(types) => NoVectorsIn(types)
    case TTable(index, result) => NoVectorsIn(index) && NoVectorsYield(result)
    case _ => true
  }

  ghost predicate NoVectorsField(f: Field)
    decreases f
  {
    NoVectors(f.t)
  }

  ghost predicate NoVectorsIn(types: seq<Type>)
    decreases types
  {
    forall i :: 0 <= i < |types| ==> NoVectors(types[i])
  }

  ghost predicate NoVectorsYield(y: Yield)
    decreases y
  {
    y.YieldOf? ==> NoVectors(y.t)
  }

  lemma SoundJoin(x: seq<Put>, y: seq<Put>, exact: bool)
    requires Sound(x, exact) && Sound(y, exact)
    ensures Sound(x + y, exact)
  {
  }

  lemma SizeSound(n: nat, exact: bool)
    ensures Sound([Size4(n)], exact)
  {
  }

  lemma ScalarSound(funcs: seq<nat>, t: Type, v: Val)
    requires HasType(t, v) && !t.TRecord? && !t.TVector? && !t.TList? && !t.TTable?
    ensures Sound(Ops(funcs, t, v), true)
  {
  }

  lemma {:induction false} OpsSound(funcs: seq<nat>, t: Type, v: Val, exact: bool)
    requires HasType(t, v) && (exact ==> NoVectors(t))
    ensures Sound(Ops(funcs, t, v), exact)
    decreases v, 2
  {
    hide Sound, FieldOps, ElemOps, ListOps, EntryOps, Size4;
    hide FieldsHave, ListHas, EntryHas, ElemHas, NoVectorsIn, NoVectorsField, NoVectorsYield;
    match t {
      case TRecord(fields) =>
        FieldsSound(funcs, fields, v.fields, exact);
      case TVector(elem) =>
        ElemsSound(funcs, elem, v.elems);
        SizeSound(|v.elems|, exact);
        SoundJoin([Size4(|v.elems|)], ElemOps(funcs, elem, v.elems), exact);
      case TList(types) =>
        SizedSound(funcs, types, v.vals, exact);
      case TTable(index, result) =>
        EntriesSound(funcs, index, result, v.entries, exact);
        SizeSound(|v.entries|, exact);
        SoundJoin([Size4(|v.entries|)], EntryOps(funcs, index, result, v.entries), exact);
      case _ =>
        ScalarSound(funcs, t, v);
        Weaken(Ops(funcs, t, v), exact);
    }
  }

  lemma Weaken(ops: seq<Put>, exact: bool)
    requires Sound(ops, true)
    ensures Sound(ops, exact)
  {
  }

  lemma {:induction false} MaybeSound(funcs: seq<nat>, t: Type, o: Maybe, exact: bool)
    requires ElemHas(t, o) && (exact ==> NoVectors(t))
    ensures Sound(MaybeOps(funcs, t, o), exact)
    decreases o, 0
  {
    hide Ops, HasType;
    if o.Just? {
      hide Sound;
      OpsSound(funcs, t, o.v, exact);
    }
  }

  lemma {:induction false} FieldsSound(funcs: seq<nat>, fields: seq<Field>, os: seq<Maybe>, exact: bool)
    requires FieldsHave(fields, os) && (exact ==> forall i :: 0 <= i < |fields| ==> NoVectorsField(fields[i]))
    ensures Sound(FieldOps(funcs, fields, os), exact)
    decreases os, 0
  {
    if os != [] {
      hide Sound, MaybeOps, ElemHas, Flag, FieldOps, FieldsHave, NoVectors, NoVectorsField;
      var n := |os| - 1;
      FieldsTurn(funcs, fields, os);
      FieldsSound(funcs, fields[..n], os[..n], exact);
      assert exact ==> NoVectorsField(fields[n]);
      FieldSound(funcs, fields[n], os[n], exact);
      SoundJoin(FieldOps(funcs, fields[..n], os[..n]), OneField(funcs, fields[n], os[n]), exact);
    }
  }

  lemma {:induction false} FieldSound(funcs: seq<nat>, f: Field, o: Maybe, exact: bool)
    requires ElemHas(f.t, o) && (exact ==> NoVectorsField(f))
    ensures Sound(OneField(funcs, f, o), exact)
    decreases o, 1
  {
    hide ElemHas, NoVectors, MaybeOps;
    MaybeSound(funcs, f.t, o, exact);
    var flag := if f.optional then [Flag(o.Just?)] else [];
    assert Sound(flag, exact);
    SoundJoin(flag, MaybeOps(funcs, f.t, o), exact);
  }

  lemma {:induction false} ElemsSound(funcs: seq<nat>, elem: Type, os: seq<Maybe>)
    requires forall i :: 0 <= i < |os| ==> ElemHas(elem, os[i])
    ensures Sound(ElemOps(funcs, elem, os), false)
    decreases os, 0
  {
    if os != [] {
      hide MaybeOps, ElemHas, ElemOps;
      var n := |os| - 1;
      ElemsTurn(funcs, elem, os);
      ElemsSound(funcs, elem, os[..n]);
      MaybeSound(funcs, elem, os[n], false);
      assert Sound([Present(os[n].Just?)], false) && Sound([Size4(n)], false);
      hide Sound;
      SoundJoin([Present(os[n].Just?)], MaybeOps(funcs, elem, os[n]), false);
      SoundJoin([Size4(n)], [Present(os[n].Just?)] + MaybeOps(funcs, elem, os[n]), false);
      SoundJoin(ElemOps(funcs, elem, os[..n]), OneElem(funcs, elem, n, os[n]), false);
    }
  }

  lemma {:induction false} ListSound(funcs: seq<nat>, types: seq<Type>, vs: seq<Val>, exact: bool)
    requires ListHas(types, vs) && (exact ==> NoVectorsIn(types))
    ensures Sound(ListOps(funcs, types, vs), exact)
    decreases vs, 0
  {
    if vs != [] {
      hide Sound, Ops, HasType, ListOps, ListHas, NoVectors;
      var n := |vs| - 1;
      ListTurn(funcs, types, vs);
      ListSound(funcs, types[..n], vs[..n], exact);
      OpsSound(funcs, types[n], vs[n], exact);
      SoundJoin(ListOps(funcs, types[..n], vs[..n]), Ops(funcs, types[n], vs[n]), exact);
    }
  }

  lemma {:induction false} SizedSound(funcs: seq<nat>, types: seq<Type>, vs: seq<Val>, exact: bool)
    requires ListHas(types, vs) && (exact ==> NoVectorsIn(types))
    ensures Sound([Size4(|vs|)] + ListOps(funcs, types, vs), exact)
    decreases vs, 1
  {
    hide Sound, ListOps, ListHas, NoVectorsIn, Size4;
    SizeSound(|vs|, exact);
    ListSound(funcs, types, vs, exact);
    SoundJoin([Size4(|vs|)], ListOps(funcs, types, vs), exact);
  }

  lemma {:induction false} EntriesSound(funcs: seq<nat>, index: seq<Type>, result: Yield, es: seq<Entry>, exact: bool)
    requires (forall i :: 0 <= i < |es| ==> EntryHas(index, result, es[i])) &&
             (exact ==> NoVectorsIn(index) && NoVectorsYield(result))
    ensures Sound(EntryOps(funcs, index, result, es), exact)
    decreases es, 2
  {
    if es != [] {
      hide Sound, EntryHas, OneEntry, EntryOps, NoVectorsIn, NoVectorsYield;
      var n := |es| - 1;
      EntriesTurn(funcs, index, result, es);
      EntriesSound(funcs, index, result, es[..n], exact);
      EntrySound(funcs, index, result, es[n], exact);
      SoundJoin(EntryOps(funcs, index, result, es[..n]), OneEntry(funcs, index, result, es[n]), exact);
    }
  }

  lemma {:induction false} EntrySound(funcs: seq<nat>, index: seq<Type>, result: Yield, e: Entry, exact: bool)
    requires EntryHas(index, result, e) && (exact ==> NoVectorsIn(index) && NoVectorsYield(result))
    ensures Sound(OneEntry(funcs, index, result, e), exact)
    decreases e, 1
  {
    hide ListOps, MaybeOps, ListHas, HasType, NoVectorsIn, Size4, NoVectors;
    var keys := [Size4(|e.index|)] + ListOps(funcs, index, e.index);
    var ops := if result.YieldOf? then MaybeOps(funcs, result.t, e.result) else [];
    SizedSound(funcs, index, e.index, exact);
    if result.YieldOf? {
      MaybeSound(funcs, result.t, e.result, exact);
    }
    assert Sound(ops, exact);
    SoundJoin(keys, ops, exact);
  }

  /** At every step of writing a list of values, the running reservation is at least the write offset,
      and the whole reservation at least that. */
  lemma WritesFit(funcs: seq<nat>, types: seq<Type>, vs: seq<Val>, k: nat)
    requires ListHas(types, vs) && k <= |ListOps(funcs, types, vs)|
    ensures var ops := ListOps(funcs, types, vs);
            |Written([], ops[..k])| <= Reserved(0, ops[..k]) <= Reserved(0, ops)
  {
    hide ListOps;
    ListSound(funcs, types, vs, false);
    StepFits([], 0, ListOps(funcs, types, vs), k);
  }

  lemma {:induction false} ExactFits(b: seq<Byte>, ops: seq<Put>)
    requires AllExact(ops)
    ensures Reserved(|b|, ops) == |Written(b, ops)|
    decreases |ops|
  {
    if ops != [] {
      hide Padded, AlignUp;
      assert Exact(ops[0]);
      ExactFits(Padded(b, ops[0].align) + ops[0].data, ops[1..]);
    }
  }

  /** Without vectors the key is exactly as long as what is written to it. */
  lemma NoVectorsNoSlack(funcs: seq<nat>, types: seq<Type>, vs: seq<Val>)
    requires ListHas(types, vs) && NoVectorsIn(types)
    ensures Slack(funcs, types, vs) == 0
  {
    hide ListOps;
    ListSound(funcs, types, vs, true);
    ExactFits([], ListOps(funcs, types, vs));
  }

  predicate Scalar(t: Type) { !t.TRecord? && !t.TVector? && !t.TList? && !t.TTable? }

  lemma OneBoth(b: seq<Byte>, r: nat, p: Put, ops: seq<Put>)
    ensures Written(b, [p] + ops) == Written(After(b, p), ops)
    ensures Reserved(r, [p] + ops) == Reserved(AlignUp(r, p.roomAlign) + p.room, ops)
  {
    assert ([p] + ops)[1..] == ops;
  }

  lemma NothingReserved(n: nat)
    ensures Reserved(n, []) == n
  {
  }

  // ---------------------------------------------------------------- function ids

  ghost predicate SameRooms(x: seq<Put>, y: seq<Put>) {
    |x| == |y| && forall i :: 0 <= i < |x| ==>
      x[i].room == y[i].room && x[i].roomAlign == y[i].roomAlign && |x[i].data| == |y[i].data| &&
          x[i].align == y[i].align
  }

  /** What is reserved does not depend on the function table. */
  ghost predicate Related(x: seq<Put>, y: seq<Put>, same: bool) { SameRooms(x, y) && (same ==> x == y) }

  lemma RelatedJoin(x: seq<Put>, y: seq<Put>, x': seq<Put>, y': seq<Put>, same: bool)
    requires Related(x, x', same) && Related(y, y', same)
    ensures Related(x + y, x' + y', same)
  {
  }

  lemma RelatedSelf(x: seq<Put>, same: bool)
    ensures Related(x, x, same)
  {
  }

  lemma {:induction false} RelatedReserve(n: nat, x: seq<Put>, y: seq<Put>)
    requires SameRooms(x, y)
    ensures Reserved(n, x) == Reserved(n, y)
    decreases |x|
  {
    if x != [] {
      RelatedReserve(AlignUp(n, x[0].roomAlign) + x[0].room, x[1..], y[1..]);
    }
  }

  lemma {:induction false} RelatedLength(b: seq<Byte>, b': seq<Byte>, x: seq<Put>, y: seq<Put>)
    requires SameRooms(x, y) && |b| == |b'|
    ensures |Written(b, x)| == |Written(b', y)|
    decreases |x|
  {
    if x != [] {
      RelatedLength(Padded(b, x[0].align) + x[0].data, Padded(b', y[0].align) + y[0].data, x[1..], y[1..]);
    }
  }

  lemma ScalarRelated(f: seq<nat>, g: seq<nat>, t: Type, v: Val, same: bool)
    requires HasType(t, v) && !t.TRecord? && !t.TVector? && !t.TList? && !t.TTable?
    requires same ==> f <= g && Covers(f, v)
    ensures Related(Ops(f, t, v), Ops(g, t, v), same)
  {
    if t.TFunc? && same {
      IdStays(f, g, v.f);
    }
  }

  /** Two function tables give the same reservations, and the same writes when one extends the other. */
  lemma {:induction false} OpsRelated(f: seq<nat>, g: seq<nat>, t: Type, v: Val, same: bool)
    requires HasType(t, v) && (same ==> f <= g && Covers(f, v))
    ensures Related(Ops(f, t, v), Ops(g, t, v), same)
    decreases v, 2
  {
    hide Related, FieldOps, ElemOps, ListOps, EntryOps, Size4;
    hide FieldsHave, ListHas, EntryHas, ElemHas, CoversMaybe, CoversList, CoversEntry;
    match t {
      case TRecord(fields) =>
        FieldsRelated(f, g, fields, v.fields, same);
      case TVector(elem) =>
        ElemsRelated(f, g, elem, v.elems, same);
        RelatedSelf([Size4(|v.elems|)], same);
        RelatedJoin([Size4(|v.elems|)], ElemOps(f, elem, v.elems), [Size4(|v.elems|)], ElemOps(g, elem, v.elems), same);
      case TList(types) =>
        SizedRelated(f, g, types, v.vals, same);
      case TTable(index, result) =>
        EntriesRelated(f, g, index, result, v.entries, same);
        RelatedSelf([Size4(|v.entries|)], same);
        RelatedJoin([Size4(|v.entries|)], EntryOps(f, index, result, v.entries), [Size4(|v.entries|)],
            EntryOps(g, index, result, v.entries), same);
      case _ =>
        ScalarRelated(f, g, t, v, same);
    }
  }

  lemma {:induction false} MaybeRelated(f: seq<nat>, g: seq<nat>, t: Type, o: Maybe, same: bool)
    requires ElemHas(t, o) && (same ==> f <= g && CoversMaybe(f, o))
    ensures Related(MaybeOps(f, t, o), MaybeOps(g, t, o), same)
    decreases o, 0
  {
    hide Ops, HasType, Covers;
    if o.Just? {
      hide Related;
      OpsRelated(f, g, t, o.v, same);
    }
  }

  lemma {:induction false} FieldsRelated(f: seq<nat>, g: seq<nat>, fields: seq<Field>, os: seq<Maybe>, same: bool)
    requires FieldsHave(fields, os) && (same ==> f <= g && forall i :: 0 <= i < |os| ==> CoversMaybe(f, os[i]))
    ensures Related(FieldOps(f, fields, os), FieldOps(g, fields, os), same)
    decreases os, 1
  {
    if os != [] {
      hide Related, MaybeOps, Flag, ElemHas, FieldOps, FieldsHave, CoversMaybe;
      var n := |os| - 1;
      FieldsTurn(f, fields, os);
      FieldsTurn(g, fields, os);
      FieldsRelated(f, g, fields[..n], os[..n], same);
      assert same ==> CoversMaybe(f, os[n]);
      MaybeRelated(f, g, fields[n].t, os[n], same);
      var flag := if fields[n].optional then [Flag(os[n].Just?)] else [];
      RelatedSelf(flag, same);
      RelatedJoin(flag, MaybeOps(f, fields[n].t, os[n]), flag, MaybeOps(g, fields[n].t, os[n]), same);
      RelatedJoin(FieldOps(f, fields[..n], os[..n]), OneField(f, fields[n], os[n]), FieldOps(g, fields[..n], os[..n]),
          OneField(g, fields[n], os[n]), same);
    }
  }

  lemma {:induction false} ElemsRelated(f: seq<nat>, g: seq<nat>, elem: Type, os: seq<Maybe>, same: bool)
    requires forall i :: 0 <= i < |os| ==> ElemHas(elem, os[i])
    requires same ==> f <= g && forall i :: 0 <= i < |os| ==> CoversMaybe(f, os[i])
    ensures Related(ElemOps(f, elem, os), ElemOps(g, elem, os), same)
    decreases os, 1
  {
    if os != [] {
      hide Related, MaybeOps, Size4, Present, ElemHas, ElemOps, CoversMaybe;
      var n := |os| - 1;
      ElemsTurn(f, elem, os);
      ElemsTurn(g, elem, os);
      ElemsRelated(f, g, elem, os[..n], same);
      assert same ==> CoversMaybe(f, os[n]);
      MaybeRelated(f, g, elem, os[n], same);
      var p, q := [Size4(n)], [Present(os[n].Just?)];
      RelatedSelf(p, same);
      RelatedSelf(q, same);
      RelatedJoin(q, MaybeOps(f, elem, os[n]), q, MaybeOps(g, elem, os[n]), same);
      RelatedJoin(p, q + MaybeOps(f, elem, os[n]), p, q + MaybeOps(g, elem, os[n]), same);
      RelatedJoin(ElemOps(f, elem, os[..n]), OneElem(f, elem, n, os[n]), ElemOps(g, elem, os[..n]),
          OneElem(g, elem, n, os[n]), same);
    }
  }

  lemma {:induction false} ListRelated(f: seq<nat>, g: seq<nat>, types: seq<Type>, vs: seq<Val>, same: bool)
    requires ListHas(types, vs) && (same ==> f <= g && CoversList(f, vs))
    ensures Related(ListOps(f, types, vs), ListOps(g, types, vs), same)
    decreases vs, 0
  {
    if vs != [] {
      hide Related, Ops, HasType, ListOps, ListHas, Covers, CoversList;
      var n := |vs| - 1;
      ListTurn(f, types, vs);
      ListTurn(g, types, vs);
      if same {
        CoversTurn(f, vs);
      }
      ListRelated(f, g, types[..n], vs[..n], same);
      OpsRelated(f, g, types[n], vs[n], same);
      RelatedJoin(ListOps(f, types[..n], vs[..n]), Ops(f, types[n], vs[n]), ListOps(g, types[..n], vs[..n]),
          Ops(g, types[n], vs[n]), same);
    }
  }

  lemma {:induction false} SizedRelated(f: seq<nat>, g: seq<nat>, types: seq<Type>, vs: seq<Val>, same: bool)
    requires ListHas(types, vs) && (same ==> f <= g && CoversList(f, vs))
    ensures Related([Size4(|vs|)] + ListOps(f, types, vs), [Size4(|vs|)] + ListOps(g, types, vs), same)
    decreases vs, 1
  {
    hide Related, ListOps, ListHas, Size4, CoversList;
    RelatedSelf([Size4(|vs|)], same);
    ListRelated(f, g, types, vs, same);
    RelatedJoin([Size4(|vs|)], ListOps(f, types, vs), [Size4(|vs|)], ListOps(g, types, vs), same);
  }

  lemma {:induction false} EntriesRelated(f: seq<nat>, g: seq<nat>, index: seq<Type>, result: Yield, es: seq<Entry>,
      same: bool)
    requires forall i :: 0 <= i < |es| ==> EntryHas(index, result, es[i])
    requires same ==> f <= g && forall i :: 0 <= i < |es| ==> CoversEntry(f, es[i])
    ensures Related(EntryOps(f, index, result, es), EntryOps(g, index, result, es), same)
    decreases es, 2
  {
    if es != [] {
      hide Related, EntryHas, OneEntry, EntryOps, CoversEntry;
      var n := |es| - 1;
      EntriesTurn(f, index, result, es);
      EntriesTurn(g, index, result, es);
      EntriesRelated(f, g, index, result, es[..n], same);
      EntryRelated(f, g, index, result, es[n], same);
      RelatedJoin(EntryOps(f, index, result, es[..n]), OneEntry(f, index, result, es[n]),
          EntryOps(g, index, result, es[..n]), OneEntry(g, index, result, es[n]), same);
    }
  }

  lemma {:induction false} EntryRelated(f: seq<nat>, g: seq<nat>, index: seq<Type>, result: Yield, e: Entry, same: bool)
    requires EntryHas(index, result, e) && (same ==> f <= g && CoversEntry(f, e))
    ensures Related(OneEntry(f, index, result, e), OneEntry(g, index, result, e), same)
    decreases e, 1
  {
    hide ListOps, MaybeOps, ListHas, HasType, Size4, CoversList, CoversMaybe;
    var x := if result.YieldOf? then MaybeOps(f, result.t, e.result) else [];
    var y := if result.YieldOf? then MaybeOps(g, result.t, e.result) else [];
    SizedRelated(f, g, index, e.index, same);
    if result.YieldOf? {
      MaybeRelated(f, g, result.t, e.result, same);
    }
    assert Related(x, y, same);
    RelatedJoin([Size4(|e.index|)] + ListOps(f, index, e.index), x, [Size4(|e.index|)] + ListOps(g, index, e.index), y,
        same);
  }

  // ---------------------------------------------------------------- keys

  /** Recover the values of a key; a single string is the whole key. */
  function DecodeKey(funcs: seq<nat>, types: seq<Type>, key: seq<Byte>): Parsed<seq<Val>> {
    if |types| == 1 && types[0].TString? then Ok([Str(key)], |key|) else DecodeList(funcs, types, key, 0)
  }

  /** Recovering a key gives back the values it was made from, even after the function table has grown
      and whatever the unwritten bytes of the key hold. */
  lemma KeyRecovers(funcs: seq<nat>, funcs': seq<nat>, types: seq<Type>, vs: seq<Val>, tail: seq<Byte>)
    requires ListHas(types, vs) && Grown(funcs, funcs') && CoversList(funcs, vs)
    requires |types| == 1 && types[0].TString? ==> tail == []
    ensures DecodeKey(funcs', types, KeyBytes(funcs, types, vs) + tail).Ok?
    ensures DecodeKey(funcs', types, KeyBytes(funcs, types, vs) + tail).v == vs
  {
    if |types| == 1 && types[0].TString? {
      assert HasType(types[0], vs[0]);
      assert vs[0].text + tail == vs[0].text;
      assert vs == [vs[0]];
    } else {
      hide Written, DecodeList, ListOps, ListHas, CoversList;
      var whole := KeyBytes(funcs, types, vs) + tail;
      ListRound(funcs, funcs', types, vs, [], whole);
    }
  }

  // ---------------------------------------------------------------- the room for a whole value

  /** What is reserved, whatever the function table, holds what is written. */
  lemma AllFits(b: seq<Byte>, funcs: seq<nat>, types: seq<Type>, cs: seq<Val>)
    requires ListHas(types, cs)
    ensures |Written(b, ListOps(funcs, types, cs))| <= Reserved(|b|, ListOps([], types, cs))
    ensures Reserved(|b|, ListOps([], types, cs)) == Reserved(|b|, ListOps(funcs, types, cs))
  {
    hide ListOps;
    ListSound(funcs, types, cs, false);
    Fits(b, |b|, ListOps(funcs, types, cs));
    ListRelated([], funcs, types, cs, false);
    RelatedReserve(|b|, ListOps([], types, cs), ListOps(funcs, types, cs));
  }

  lemma ValFits(b: seq<Byte>, funcs: seq<nat>, t: Type, c: Val)
    requires HasType(t, c)
    ensures |Written(b, Ops(funcs, t, c))| <= Reserved(|b|, Ops([], t, c))
    ensures Reserved(|b|, Ops([], t, c)) == Reserved(|b|, Ops(funcs, t, c))
  {
    hide Ops, HasType;
    OpsSound(funcs, t, c, false);
    Fits(b, |b|, Ops(funcs, t, c));
    OpsRelated([], funcs, t, c, false);
    RelatedReserve(|b|, Ops([], t, c), Ops(funcs, t, c));
  }

  /** What is reserved for the key of a list of values holds what is written for it. */
  lemma RoomSuffices(funcs: seq<nat>, types: seq<Type>, vs: seq<Val>)
    requires ListHas(types, vs)
    ensures Room(types, vs) - |KeyBytes(funcs, types, vs)| == Slack(funcs, types, vs) >= 0
  {
    AllFits([], funcs, types, vs);
  }
}
