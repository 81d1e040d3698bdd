/** The gap between what has been written to a key and what was reserved for it, followed through a
    value. Only the shape of the value matters: neither its bytes nor the function ids. */
module CompGap {
  import opened Octet
  import opened HashBytes
  import opened CompVals
  import opened CompRound
  import opened CompOrder
  import opened CompKeys

  /** The write offset, and how far the reservation is ahead of it. */
  datatype Cursor = Cursor(at: nat, gap: nat)

  /** n bytes reserved and written with the same alignment. */
  function Aligned(c: Cursor, a: nat, n: nat): Cursor
    requires Alignment(a)
  {
    AlignMonotone(c.at, c.at + c.gap, a);
    Cursor(AlignUp(c.at, a) + n, AlignUp(c.at + c.gap, a) - AlignUp(c.at, a))
  }

  /** n bytes reserved and written unaligned. */
  function Plain(c: Cursor, n: nat): Cursor { Cursor(c.at + n, c.gap) }

  /** The flag of a vector element: a word reserved, a byte written. */
  function Flagged(c: Cursor): Cursor { Cursor(c.at + 1, AlignUp(c.at + c.gap, 4) + 4 - (c.at + 1)) }

  function Gapped(c: Cursor, t: Type, v: Val): Cursor
    requires HasType(t, v)
    decreases v, 1
  {
    match t
    case TInt => Aligned(c, 8, 8)
    case TCount => Aligned(c, 8, 8)
    case TDouble => Aligned(c, 8, 8)
    case TAddr => Aligned(c, 4, 16)
    case TSubnet => Aligned(c, 4, 20)
    case TString => Plain(Aligned(c, 4, 4), |v.text|)
    case TFunc => Aligned(c, 4, 4)
    case TRecord(fields) => GappedFields(c, fields, v.fields)
    case TVector(elem) => GappedElems(Aligned(c, 4, 4), elem, v.elems)
    case TList(types) => GappedList(Aligned(c, 4, 4), types, v.vals)
    case TTable(index, result) => GappedEntries(Aligned(c, 4, 4), index, result, v.entries)
  }

  function GappedMaybe(c: Cursor, t: Type, o: Maybe): Cursor
    requires ElemHas(t, o)
    decreases o, 0
  {
    if o.Just? then Gapped(c, t, o.v) else c
  }

  function GappedField(c: Cursor, f: Field, o: Maybe): Cursor
    requires ElemHas(f.t, o)
    decreases o, 1
  {
    GappedMaybe(if f.optional then Plain(c, 1) else c, f.t, o)
  }

  function GappedFields(c: Cursor, fields: seq<Field>, os: seq<Maybe>): Cursor
    requires FieldsHave(fields, os)
    decreases os, 0
  {
    if os == [] then c
    else
      var n := |os| - 1;
      assert ElemHas(fields[n].t, os[n]);
      GappedField(GappedFields(c, fields[..n], os[..n]), fields[n], os[n])
  }

  function GappedElem(c: Cursor, elem: Type, o: Maybe): Cursor
    requires ElemHas(elem, o)
    decreases o, 1
  {
    GappedMaybe(Flagged(Aligned(c, 4, 4)), elem, o)
  }

  function GappedElems(c: Cursor, elem: Type, os: seq<Maybe>): Cursor
    requires forall i :: 0 <= i < |os| ==> ElemHas(elem, os[i])
    decreases os, 0
  {
    if os == [] then c
    else
      var n := |os| - 1;
      GappedElem(GappedElems(c, elem, os[..n]), elem, os[n])
  }

  function GappedList(c: Cursor, types: seq<Type>, vs: seq<Val>): Cursor
    requires ListHas(types, vs)
    decreases vs, 0
  {
    if vs == [] then c
    else
      var n := |vs| - 1;
      Gapped(GappedList(c, types[..n], vs[..n]), types[n], vs[n])
  }

  function GappedEntry(c: Cursor, index: seq<Type>, result: Yield, e: Entry): Cursor
    requires EntryHas(index, result, e)
    decreases e, 1
  {
    var c1 := GappedList(Aligned(c, 4, 4), index, e.index);
    if result.YieldOf? then GappedMaybe(c1, result.t, e.result) else c1
  }

  function GappedEntries(c: Cursor, index: seq<Type>, result: Yield, es: seq<Entry>): Cursor
    requires forall i :: 0 <= i < |es| ==> EntryHas(index, result, es[i])
    decreases es, 0
  {
    if es == [] then c
    else
      var n := |es| - 1;
      GappedEntry(GappedEntries(c, index, result, es[..n]), index, result, es[n])
  }

  /** How many bytes of the key of a list of values are reserved and never written. */
  function Gap(types: seq<Type>, vs: seq<Val>): nat
    requires ListHas(types, vs)
  {
    if |types| == 1 && types[0].TString? then 0 else GappedList(Cursor(0, 0), types, vs).gap
  }

  // ---------------------------------------------------------------- the cursor is where the key is

  /** The cursor stands where writing and reserving do. */
  ghost predicate At(b: seq<Byte>, n: nat, c: Cursor) { |b| == c.at && n == c.at + c.gap }

  ghost predicate Follows(b: seq<Byte>, n: nat, ops: seq<Put>, c: Cursor) { At(Written(b, ops), Reserved(n, ops), c) }

  lemma FollowsJoin(b: seq<Byte>, n: nat, x: seq<Put>, y: seq<Put>, c: Cursor)
    requires Follows(Written(b, x), Reserved(n, x), y, c)
    ensures Follows(b, n, x + y, c)
  {
    WrittenJoin(b, x, y);
    ReservedJoin(n, x, y);
  }

  lemma FollowsOne(b: seq<Byte>, n: nat, p: Put, c: Cursor)
    requires At(b, n, c)
    ensures Written(b, [p]) == After(b, p) && Reserved(n, [p]) == AlignUp(n, p.roomAlign) + p.room
    ensures p.align == p.roomAlign && Alignment(p.align) && |p.data| == p.room ==>
            Follows(b, n, [p], Aligned(c, p.align, p.room))
    ensures p.align <= 1 && p.roomAlign <= 1 && |p.data| == p.room ==> Follows(b, n, [p], Plain(c, p.room))
  {
    hide AlignUp;
    WrittenOne(b, p, []);
    OneBoth(b, n, p, []);
    NothingReserved(AlignUp(n, p.roomAlign) + p.room);
    assert [p] + [] == [p];
  }

  lemma FollowsSize(b: seq<Byte>, n: nat, k: nat, c: Cursor)
    requires At(b, n, c)
    ensures Follows(b, n, [Size4(k)], Aligned(c, 4, 4))
  {
    FollowsOne(b, n, Size4(k), c);
  }

  lemma FollowsPresent(b: seq<Byte>, n: nat, given: bool, c: Cursor)
    requires At(b, n, c)
    ensures Follows(b, n, [Present(given)], Flagged(c))
  {
    FollowsOne(b, n, Present(given), c);
  }

  lemma FollowsNothing(b: seq<Byte>, n: nat, c: Cursor)
    requires At(b, n, c)
    ensures Follows(b, n, [], c)
  {
  }

  lemma ScalarFollows(funcs: seq<nat>, t: Type, v: Val, b: seq<Byte>, n: nat, c: Cursor)
    requires HasType(t, v) && Scalar(t) && At(b, n, c)
    ensures Follows(b, n, Ops(funcs, t, v), Gapped(c, t, v))
  {
    var ops := Ops(funcs, t, v);
    hide Follows, AlignUp, Word, IdOf, Aligned, Plain;
    FollowsOne(b, n, ops[0], c);
    if t.TString? {
      var b1, n1 := Written(b, [ops[0]]), Reserved(n, [ops[0]]);
      FollowsAt(b, n, [ops[0]], Aligned(c, 4, 4));
      FollowsOne(b1, n1, ops[1], Aligned(c, 4, 4));
      FollowsJoin(b, n, [ops[0]], [ops[1]], Gapped(c, t, v));
      assert ops == [ops[0]] + [ops[1]];
    } else {
      assert ops == [ops[0]];
    }
  }

  lemma FollowsAt(b: seq<Byte>, n: nat, ops: seq<Put>, c: Cursor)
    requires Follows(b, n, ops, c)
    ensures At(Written(b, ops), Reserved(n, ops), c)
  {
  }

  /** After any value the cursor is where its script leaves the key. */
  lemma {:induction false} GappedFollows(funcs: seq<nat>, t: Type, v: Val, b: seq<Byte>, n: nat, c: Cursor)
    requires HasType(t, v) && At(b, n, c)
    ensures Follows(b, n, Ops(funcs, t, v), Gapped(c, t, v))
    decreases v, 2
  {
    hide Follows, At, FieldOps, ElemOps, ListOps, EntryOps, Size4, Aligned;
    hide GappedFields, GappedElems, GappedList, GappedEntries, FieldsHave, ListHas, EntryHas, ElemHas;
    match t {
      case TRecord(fields) =>
        FieldsFollow(funcs, fields, v.fields, b, n, c);
      case TVector(elem) =>
        var p, ops := [Size4(|v.elems|)], ElemOps(funcs, elem, v.elems);
        FollowsSize(b, n, |v.elems|, c);
        FollowsAt(b, n, p, Aligned(c, 4, 4));
        ElemsFollow(funcs, elem, v.elems, Written(b, p), Reserved(n, p), Aligned(c, 4, 4));
        FollowsJoin(b, n, p, ops, Gapped(c, t, v));
      case TList(types) =>
        SizedFollows(funcs, types, v.vals, b, n, c);
      case TTable(index, result) =>
        var p, ops := [Size4(|v.entries|)], EntryOps(funcs, index, result, v.entries);
        FollowsSize(b, n, |v.entries|, c);
        FollowsAt(b, n, p, Aligned(c, 4, 4));
        EntriesFollow(funcs, index, result, v.entries, Written(b, p), Reserved(n, p), Aligned(c, 4, 4));
        FollowsJoin(b, n, p, ops, Gapped(c, t, v));
      case _ =>
        ScalarFollows(funcs, t, v, b, n, c);
    }
  }

  lemma {:induction false} MaybeFollows(funcs: seq<nat>, t: Type, o: Maybe, b: seq<Byte>, n: nat, c: Cursor)
    requires ElemHas(t, o) && At(b, n, c)
    ensures Follows(b, n, MaybeOps(funcs, t, o), GappedMaybe(c, t, o))
    decreases o, 0
  {
    hide Follows, At, Ops, HasType, Gapped;
    if o.Just? {
      GappedFollows(funcs, t, o.v, b, n, c);
    } else {
      FollowsNothing(b, n, c);
    }
  }

  lemma {:induction false} FieldFollows(funcs: seq<nat>, f: Field, o: Maybe, b: seq<Byte>, n: nat, c: Cursor)
    requires ElemHas(f.t, o) && At(b, n, c)
    ensures Follows(b, n, OneField(funcs, f, o), GappedField(c, f, o))
    decreases o, 1
  {
    hide Follows, At, MaybeOps, ElemHas, GappedMaybe, Plain;
    var ops := MaybeOps(funcs, f.t, o);
    if f.optional {
      var p := [Flag(o.Just?)];
      FollowsOne(b, n, p[0], c);
      FollowsAt(b, n, p, Plain(c, 1));
      MaybeFollows(funcs, f.t, o, Written(b, p), Reserved(n, p), Plain(c, 1));
      FollowsJoin(b, n, p, ops, GappedField(c, f, o));
    } else {
      MaybeFollows(funcs, f.t, o, b, n, c);
      assert [] + ops == ops;
    }
  }

  lemma {:induction false} FieldsFollow(funcs: seq<nat>, fields: seq<Field>, os: seq<Maybe>, b: seq<Byte>, n: nat,
      c: Cursor)
    requires FieldsHave(fields, os) && At(b, n, c)
    ensures Follows(b, n, FieldOps(funcs, fields, os), GappedFields(c, fields, os))
    decreases os, 0
  {
    hide Follows, At, OneField, FieldOps, FieldsHave, ElemHas, GappedField;
    if os == [] {
      NoFieldsFollow(funcs, fields, os, b, n, c);
    } else {
      var k := |os| - 1;
      FieldsTurn(funcs, fields, os);
      var head, c1 := FieldOps(funcs, fields[..k], os[..k]), GappedFields(c, fields[..k], os[..k]);
      FieldsFollow(funcs, fields[..k], os[..k], b, n, c);
      FollowsAt(b, n, head, c1);
      FieldFollows(funcs, fields[k], os[k], Written(b, head), Reserved(n, head), c1);
      FollowsJoin(b, n, head, OneField(funcs, fields[k], os[k]), GappedFields(c, fields, os));
    }
  }

  lemma NoFieldsFollow(funcs: seq<nat>, fields: seq<Field>, os: seq<Maybe>, b: seq<Byte>, n: nat, c: Cursor)
    requires FieldsHave(fields, os) && os == [] && At(b, n, c)
    ensures Follows(b, n, FieldOps(funcs, fields, os), c)
  {
  }

  lemma {:induction false} ElemFollows(funcs: seq<nat>, t: Type, i: nat, o: Maybe, b: seq<Byte>, n: nat, c: Cursor)
    requires ElemHas(t, o) && At(b, n, c)
    ensures Follows(b, n, OneElem(funcs, t, i, o), GappedElem(c, t, o))
    decreases o, 1
  {
    hide Follows, At, MaybeOps, ElemHas, GappedMaybe, Aligned, Flagged, Size4, Present;
    var p, q, ops, c1 := [Size4(i)], [Present(o.Just?)], MaybeOps(funcs, t, o), Aligned(c, 4, 4);
    FollowsSize(b, n, i, c);
    FollowsAt(b, n, p, c1);
    var b1, n1 := Written(b, p), Reserved(n, p);
    FollowsPresent(b1, n1, o.Just?, c1);
    FollowsAt(b1, n1, q, Flagged(c1));
    MaybeFollows(funcs, t, o, Written(b1, q), Reserved(n1, q), Flagged(c1));
    FollowsJoin(b1, n1, q, ops, GappedElem(c, t, o));
    FollowsJoin(b, n, p, q + ops, GappedElem(c, t, o));
  }

  lemma {:induction false} ElemsFollow(funcs: seq<nat>, t: Type, os: seq<Maybe>, b: seq<Byte>, n: nat, c: Cursor)
    requires (forall i :: 0 <= i < |os| ==> ElemHas(t, os[i])) && At(b, n, c)
    ensures Follows(b, n, ElemOps(funcs, t, os), GappedElems(c, t, os))
    decreases os, 0
  {
    hide Follows, At, OneElem, ElemOps, ElemHas, GappedElem;
    if os == [] {
      NoElemsFollow(funcs, t, b, n, c);
    } else {
      var k := |os| - 1;
      ElemsTurn(funcs, t, os);
      var head, c1 := ElemOps(funcs, t, os[..k]), GappedElems(c, t, os[..k]);
      ElemsFollow(funcs, t, os[..k], b, n, c);
      FollowsAt(b, n, head, c1);
      ElemFollows(funcs, t, k, os[k], Written(b, head), Reserved(n, head), c1);
      FollowsJoin(b, n, head, OneElem(funcs, t, k, os[k]), GappedElems(c, t, os));
    }
  }

  lemma NoElemsFollow(funcs: seq<nat>, t: Type, b: seq<Byte>, n: nat, c: Cursor)
    requires At(b, n, c)
    ensures Follows(b, n, ElemOps(funcs, t, []), c)
  {
  }

  lemma {:induction false} ListFollows(funcs: seq<nat>, types: seq<Type>, vs: seq<Val>, b: seq<Byte>, n: nat, c: Cursor)
    requires ListHas(types, vs) && At(b, n, c)
    ensures Follows(b, n, ListOps(funcs, types, vs), GappedList(c, types, vs))
    decreases vs, 0
  {
    hide Follows, At, Ops, ListOps, ListHas, HasType, Gapped;
    if vs == [] {
      NoListFollows(funcs, types, vs, b, n, c);
    } else {
      var k := |vs| - 1;
      ListTurn(funcs, types, vs);
      var head, c1 := ListOps(funcs, types[..k], vs[..k]), GappedList(c, types[..k], vs[..k]);
      ListFollows(funcs, types[..k], vs[..k], b, n, c);
      FollowsAt(b, n, head, c1);
      GappedFollows(funcs, types[k], vs[k], Written(b, head), Reserved(n, head), c1);
      FollowsJoin(b, n, head, Ops(funcs, types[k], vs[k]), GappedList(c, types, vs));
    }
  }

  lemma NoListFollows(funcs: seq<nat>, types: seq<Type>, vs: seq<Val>, b: seq<Byte>, n: nat, c: Cursor)
    requires ListHas(types, vs) && vs == [] && At(b, n, c)
    ensures Follows(b, n, ListOps(funcs, types, vs), c)
  {
  }

  lemma {:induction false} SizedFollows(funcs: seq<nat>, types: seq<Type>, vs: seq<Val>, b: seq<Byte>, n: nat,
      c: Cursor)
    requires ListHas(types, vs) && At(b, n, c)
    ensures Follows(b, n, [Size4(|vs|)] + ListOps(funcs, types, vs), GappedList(Aligned(c, 4, 4), types, vs))
    decreases vs, 1
  {
    hide Follows, At, ListOps, ListHas, GappedList, Aligned, Size4;
    var p, c1 := [Size4(|vs|)], Aligned(c, 4, 4);
    FollowsSize(b, n, |vs|, c);
    FollowsAt(b, n, p, c1);
    ListFollows(funcs, types, vs, Written(b, p), Reserved(n, p), c1);
    FollowsJoin(b, n, p, ListOps(funcs, types, vs), GappedList(c1, types, vs));
  }

  lemma {:induction false} EntryFollows(funcs: seq<nat>, index: seq<Type>, result: Yield, e: Entry, b: seq<Byte>,
      n: nat, c: Cursor)
    requires EntryHas(index, result, e) && At(b, n, c)
    ensures Follows(b, n, OneEntry(funcs, index, result, e), GappedEntry(c, index, result, e))
    decreases e, 1
  {
    hide Follows, At, ListOps, MaybeOps, ListHas, HasType, GappedList, GappedMaybe, Aligned, Size4;
    var keys, c1 := [Size4(|e.index|)] + ListOps(funcs, index, e.index), GappedList(Aligned(c, 4, 4), index, e.index);
    SizedFollows(funcs, index, e.index, b, n, c);
    if result.YieldOf? {
      FollowsAt(b, n, keys, c1);
      MaybeFollows(funcs, result.t, e.result, Written(b, keys), Reserved(n, keys), c1);
      FollowsJoin(b, n, keys, MaybeOps(funcs, result.t, e.result), GappedEntry(c, index, result, e));
    } else {
      assert keys + [] == keys;
    }
  }

  lemma {:induction false} EntriesFollow(funcs: seq<nat>, index: seq<Type>, result: Yield, es: seq<Entry>,
      b: seq<Byte>, n: nat, c: Cursor)
    requires (forall i :: 0 <= i < |es| ==> EntryHas(index, result, es[i])) && At(b, n, c)
    ensures Follows(b, n, EntryOps(funcs, index, result, es), GappedEntries(c, index, result, es))
    decreases es, 2
  {
    hide Follows, At, OneEntry, EntryOps, EntryHas, GappedEntry;
    if es == [] {
      NoEntriesFollow(funcs, index, result, b, n, c);
    } else {
      var k := |es| - 1;
      EntriesTurn(funcs, index, result, es);
      var head, c1 := EntryOps(funcs, index, result, es[..k]), GappedEntries(c, index, result, es[..k]);
      EntriesFollow(funcs, index, result, es[..k], b, n, c);
      FollowsAt(b, n, head, c1);
      EntryFollows(funcs, index, result, es[k], Written(b, head), Reserved(n, head), c1);
      FollowsJoin(b, n, head, OneEntry(funcs, index, result, es[k]), GappedEntries(c, index, result, es));
    }
  }

  lemma NoEntriesFollow(funcs: seq<nat>, index: seq<Type>, result: Yield, b: seq<Byte>, n: nat, c: Cursor)
    requires At(b, n, c)
    ensures Follows(b, n, EntryOps(funcs, index, result, []), c)
  {
  }

  lemma FollowsIs(b: seq<Byte>, n: nat, ops: seq<Put>, c: Cursor)
    requires Follows(b, n, ops, c)
    ensures Reserved(n, ops) - |Written(b, ops)| == c.gap
  {
  }

  lemma ListGap(funcs: seq<nat>, types: seq<Type>, vs: seq<Val>, b: seq<Byte>, n: nat, c: Cursor)
    requires ListHas(types, vs) && At(b, n, c)
    ensures var ops := ListOps(funcs, types, vs);
            Reserved(n, ops) - |Written(b, ops)| == GappedList(c, types, vs).gap
  {
    hide ListOps, Written, Reserved, GappedList, ListHas, Follows;
    ListFollows(funcs, types, vs, b, n, c);
    FollowsIs(b, n, ListOps(funcs, types, vs), GappedList(c, types, vs));
  }

  lemma SlackOf(funcs: seq<nat>, types: seq<Type>, vs: seq<Val>)
    requires ListHas(types, vs) && !(|types| == 1 && types[0].TString?)
    ensures forall b, n :: b == [] && n == 0 ==>
              Slack(funcs, types, vs) ==
              Reserved(n, ListOps(funcs, types, vs)) - |Written(b, ListOps(funcs, types, vs))|
  {
    hide ListOps, ListHas;
  }

  lemma GapOf(types: seq<Type>, vs: seq<Val>)
    requires ListHas(types, vs) && !(|types| == 1 && types[0].TString?)
    ensures forall c :: c == Cursor(0, 0) ==> Gap(types, vs) == GappedList(c, types, vs).gap
  {
    hide ListHas, GappedList;
  }

  /** Before anything is written or reserved. */
  lemma Nothing() returns (b: seq<Byte>, n: nat, c: Cursor)
    ensures b == [] && n == 0 && c == Cursor(0, 0)
  {
    b, n, c := [], 0, Cursor(0, 0);
  }

  lemma ListSlack(funcs: seq<nat>, types: seq<Type>, vs: seq<Val>)
    requires ListHas(types, vs) && !(|types| == 1 && types[0].TString?)
    ensures Slack(funcs, types, vs) == Gap(types, vs)
  {
    hide ListOps, Written, Reserved, GappedList, ListHas, Slack, Gap;
    SlackOf(funcs, types, vs);
    GapOf(types, vs);
    var b, n, c := Nothing();
    ListGap(funcs, types, vs, b, n, c);
  }

  /** What is reserved for a key and never written, for every list of values and function table. */
  lemma SlackIsGap(funcs: seq<nat>, types: seq<Type>, vs: seq<Val>)
    requires ListHas(types, vs)
    ensures Slack(funcs, types, vs) == Gap(types, vs)
  {
    if !(|types| == 1 && types[0].TString?) {
      ListSlack(funcs, types, vs);
    }
  }

  // ---------------------------------------------------------------- where gaps come from

  /** Three bytes short after a flag that stands alone, or not at all. */
  ghost predicate Short(c: Cursor, short: bool) { if short then c.gap == 3 && c.at % 4 == 1 else c.gap == 0 }

  lemma Align4(n: nat)
    ensures AlignUp(n, 4) % 4 == 0 && AlignUp(AlignUp(n, 4), 4) == AlignUp(n, 4)
    ensures n % 4 == 0 ==> AlignUp(n, 4) == n
    ensures n % 4 == 1 ==> AlignUp(n, 4) == AlignUp(n + 3, 4)
  {
  }

  lemma Align8(n: nat)
    ensures n % 4 == 1 ==> AlignUp(n, 8) == AlignUp(n + 3, 8)
  {
  }

  lemma AlignsAway(c: Cursor, short: bool, a: nat, n: nat)
    requires Short(c, short) && (a == 4 || a == 8)
    ensures Aligned(c, a, n).gap == 0
  {
    hide AlignUp;
    Align4(c.at);
    Align8(c.at);
  }

  /** Scalars are written aligned, which closes such a gap. */
  lemma ScalarCloses(c: Cursor, t: Type, v: Val, short: bool)
    requires HasType(t, v) && Scalar(t) && Short(c, short)
    ensures Gapped(c, t, v).gap == 0
  {
    hide AlignUp, Aligned;
    AlignsAway(c, short, 4, 4);
    AlignsAway(c, short, 4, 16);
    AlignsAway(c, short, 4, 20);
    AlignsAway(c, short, 8, 8);
  }

  lemma FlagShort(c: Cursor, short: bool)
    requires Short(c, short)
    ensures Short(Flagged(Aligned(c, 4, 4)), true)
  {
    hide AlignUp, Flagged, Short;
    AlignsAway(c, short, 4, 4);
    Align4(c.at);
    FlagAt(Aligned(c, 4, 4));
  }

  lemma FlagAt(c: Cursor)
    requires c.at % 4 == 0 && c.gap == 0
    ensures Short(Flagged(c), true)
  {
  }

  /** After an element the key is short exactly when the element is a hole. */
  lemma ElemShort(c: Cursor, t: Type, o: Maybe, short: bool)
    requires ElemHas(t, o) && Scalar(t) && Short(c, short)
    ensures Short(GappedElem(c, t, o), o.Absent?)
  {
    hide AlignUp, Aligned, Flagged, HasType, Gapped, Scalar;
    FlagShort(c, short);
    if o.Just? {
      ScalarCloses(Flagged(Aligned(c, 4, 4)), t, o.v, true);
    }
  }

  lemma {:induction false} ElemsShort(c: Cursor, t: Type, os: seq<Maybe>)
    requires Scalar(t) && c.gap == 0 && forall i :: 0 <= i < |os| ==> ElemHas(t, os[i])
    ensures Short(GappedElems(c, t, os), os != [] && os[|os| - 1].Absent?)
  {
    if os != [] {
      hide Short, GappedElem, ElemHas;
      var n := |os| - 1;
      NeverShort(c);
      ElemsShort(c, t, os[..n]);
      ElemShort(GappedElems(c, t, os[..n]), t, os[n], os[..n] != [] && os[..n][n - 1].Absent?);
    }
  }

  lemma NeverShort(c: Cursor)
    ensures Short(c, false) <==> c.gap == 0
  {
  }

  /** The key of a vector of scalars is filled exactly when the vector does not end in a hole; if it
      does, three bytes of the key are never written. */
  lemma VectorGap(t: Type, os: seq<Maybe>)
    requires Scalar(t) && HasType(TVector(t), Vector(os))
    ensures ListHas([TVector(t)], [Vector(os)])
    ensures Gap([TVector(t)], [Vector(os)]) == if os != [] && os[|os| - 1].Absent? then 3 else 0
  {
    hide AlignUp, Aligned, GappedElems, ElemHas, Scalar, HasType;
    OneVector(t, os);
    Zero();
    ElemsShort(Cursor(4, 0), t, os);
  }

  lemma OneVector(t: Type, os: seq<Maybe>)
    requires HasType(TVector(t), Vector(os))
    ensures ListHas([TVector(t)], [Vector(os)]) && forall i :: 0 <= i < |os| ==> ElemHas(t, os[i])
    ensures Gap([TVector(t)], [Vector(os)]) == GappedElems(Aligned(Cursor(0, 0), 4, 4), t, os).gap
  {
    hide AlignUp, Aligned, GappedElems, ElemHas;
    var types, vs, c := [TVector(t)], [Vector(os)], Cursor(0, 0);
    assert types[..0] == [] && vs[..0] == [];
    assert GappedList(c, types, vs) == Gapped(GappedList(c, types[..0], vs[..0]), types[0], vs[0]);
  }

  lemma Zero()
    ensures Aligned(Cursor(0, 0), 4, 4) == Cursor(4, 0)
  {
  }

  lemma Steps()
    ensures Aligned(Cursor(4, 0), 4, 4) == Cursor(8, 0) && Flagged(Cursor(8, 0)) == Cursor(9, 3)
    ensures Aligned(Cursor(10, 3), 4, 16) == Cursor(28, 4)
  {
    assert AlignUp(4, 4) == 4 && AlignUp(8, 4) == 8;
    assert AlignUp(10, 4) == 12 && AlignUp(13, 4) == 16;
  }

  /** A hole can leave a gap that outlives what follows: here an unset field between the hole and the
      next aligned write makes the gap grow, and the key ends in a whole address. */
  lemma GapOutlives(addr: seq<Byte>)
    requires |addr| == 16
    ensures var types := [TRecord([Field(TVector(TCount), false), Field(TCount, true)]), TAddr];
            var vs := [Record([Just(Vector([Absent])), Absent]), Addr(addr)];
            ListHas(types, vs) && Gap(types, vs) == 4
  {
    hide AlignUp, Aligned, Flagged, Plain, Gapped, HasType, GappedList;
    var t, v := TRecord([Field(TVector(TCount), false), Field(TCount, true)]), Record([Just(Vector([Absent])), Absent]);
    var types, vs, c := [t, TAddr], [v, Addr(addr)], Cursor(0, 0);
    HoleThenUnset();
    AddrGapped(Cursor(10, 3), addr);
    Steps();
    TwoListed(c, t, v, TAddr, Addr(addr));
  }

  lemma AddrGapped(c: Cursor, addr: seq<Byte>)
    requires |addr| == 16
    ensures HasType(TAddr, Addr(addr)) && Gapped(c, TAddr, Addr(addr)) == Aligned(c, 4, 16)
  {
  }

  lemma TwoListed(c: Cursor, t: Type, v: Val, t': Type, v': Val)
    requires HasType(t, v) && HasType(t', v')
    ensures ListHas([t, t'], [v, v']) && GappedList(c, [t, t'], [v, v']) == Gapped(Gapped(c, t, v), t', v')
  {
    hide Gapped, HasType;
    var types, vs := [t, t'], [v, v'];
    assert types[..1] == [t] && vs[..1] == [v];
    assert [t][..0] == [] && [v][..0] == [];
    assert GappedList(c, [t], [v]) == Gapped(GappedList(c, [], []), t, v);
  }

  lemma HoleThenUnset()
    ensures var t, v := TRecord([Field(TVector(TCount), false), Field(TCount, true)]),
            Record([Just(Vector([Absent])), Absent]);
            HasType(t, v) && Gapped(Cursor(0, 0), t, v) == Cursor(10, 3)
  {
    hide AlignUp, Aligned, Flagged, GappedFields, GappedField;
    var fields, os := [Field(TVector(TCount), false), Field(TCount, true)], [Just(Vector([Absent])), Absent];
    OneHole();
    assert ElemHas(fields[0].t, os[0]) && ElemHas(fields[1].t, os[1]);
    assert FieldsHave(fields, os);
    TwoFields(Cursor(0, 0), fields[0], os[0], fields[1], os[1]);
    NotOptional(Cursor(0, 0), fields[0], os[0]);
    Unset(Cursor(9, 3), fields[1]);
    assert fields == [fields[0], fields[1]] && os == [os[0], os[1]];
  }

  lemma NotOptional(c: Cursor, f: Field, o: Maybe)
    requires ElemHas(f.t, o) && o.Just? && !f.optional
    ensures GappedField(c, f, o) == Gapped(c, f.t, o.v)
  {
    hide Gapped;
  }

  lemma Unset(c: Cursor, f: Field)
    requires f.optional
    ensures ElemHas(f.t, Absent) && GappedField(c, f, Absent) == Plain(c, 1)
  {
  }

  lemma TwoFields(c: Cursor, f: Field, o: Maybe, f': Field, o': Maybe)
    requires FieldsHave([f, f'], [o, o']) && ElemHas(f.t, o) && ElemHas(f'.t, o')
    ensures GappedFields(c, [f, f'], [o, o']) == GappedField(GappedField(c, f, o), f', o')
  {
    hide GappedField, ElemHas;
    var fields, os := [f, f'], [o, o'];
    assert fields[..1] == [f] && os[..1] == [o] && [f][..0] == [] && [o][..0] == [];
    assert (o.Absent? ==> f.optional) by {
      assert os[0] == o && fields[0] == f;
    }
    assert FieldsHave([f], [o]) && FieldsHave([], []);
    assert GappedFields(c, [f], [o]) == GappedField(GappedFields(c, [], []), f, o);
  }

  lemma OneHole()
    ensures HasType(TVector(TCount), Vector([Absent])) &&
            Gapped(Cursor(0, 0), TVector(TCount), Vector([Absent])) == Cursor(9, 3)
  {
    hide AlignUp, Aligned, Flagged, GappedElems;
    assert ElemHas(TCount, Absent) && HasType(TVector(TCount), Vector([Absent]));
    Zero();
    Steps();
    OneElement(Cursor(4, 0), TCount);
  }

  lemma OneElement(c: Cursor, t: Type)
    ensures ElemHas(t, Absent) && GappedElems(c, t, [Absent]) == Flagged(Aligned(c, 4, 4))
  {
    hide AlignUp, Aligned, Flagged;
    assert [Absent][..0] == [];
    assert GappedElems(c, t, [Absent]) == GappedElem(GappedElems(c, t, []), t, Absent);
  }
}
