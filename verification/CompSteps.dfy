/** What one turn of each loop over the parts of a value adds to the script, and that it fits. */
module CompSteps {
  import opened Octet
  import opened HashBytes
  import opened CompVals
  import opened CompRound
  import opened CompKeys

  lemma PrefixFits(b: seq<Byte>, x: seq<Put>, y: seq<Put>)
    requires x <= y
    ensures |Written(b, x)| <= |Written(b, y)|
  {
    WrittenJoin(b, x, y[|x|..]);
    assert x + y[|x|..] == y;
  }

  /** Adding `more` to the first part of a script, the whole of which fits when its twin does. */
  lemma StepWithin(b: seq<Byte>, head: seq<Put>, more: seq<Put>, all: seq<Put>, twin: seq<Put>, room: nat)
    requires head + more <= all && SameRooms(twin, all) && |Written(b, twin)| <= room
    ensures Written(Written(b, head), more) == Written(b, head + more)
    ensures |Written(Written(b, head), more)| <= room
  {
    WrittenJoin(b, head, more);
    PrefixFits(b, head + more, all);
    RelatedLength(b, b, twin, all);
  }

  // ---------------------------------------------------------------- records

  lemma {:induction false} FieldsPrefix(funcs: seq<nat>, fields: seq<Field>, os: seq<Maybe>, i: nat)
    requires FieldsHave(fields, os) && i <= |os|
    ensures |fields| == |os| && FieldsHave(fields[..i], os[..i])
    ensures FieldOps(funcs, fields[..i], os[..i]) <= FieldOps(funcs, fields, os)
    decreases |os|
  {
    hide FieldOps, ElemHas;
    if i == |os| {
      assert fields[..i] == fields && os[..i] == os;
    } else {
      var n := |os| - 1;
      FieldsTurn(funcs, fields, os);
      FieldsPrefix(funcs, fields[..n], os[..n], i);
      assert fields[..n][..i] == fields[..i] && os[..n][..i] == os[..i];
    }
  }

  lemma FieldsNext(funcs: seq<nat>, fields: seq<Field>, os: seq<Maybe>, i: nat)
    requires FieldsHave(fields, os) && i < |os|
    ensures |fields| == |os| && FieldsHave(fields[..i], os[..i]) && FieldsHave(fields[..i + 1], os[..i + 1])
    ensures ElemHas(fields[i].t, os[i]) && (os[i].Absent? ==> fields[i].optional)
    ensures FieldOps(funcs, fields[..i + 1], os[..i + 1]) ==
            FieldOps(funcs, fields[..i], os[..i]) + OneField(funcs, fields[i], os[i])
    ensures FieldOps(funcs, fields[..i + 1], os[..i + 1]) <= FieldOps(funcs, fields, os)
  {
    hide FieldOps, FieldsHave;
    FieldsPrefix(funcs, fields, os, i + 1);
    FieldsTurn(funcs, fields[..i + 1], os[..i + 1]);
    assert fields[..i + 1][..i] == fields[..i] && os[..i + 1][..i] == os[..i];
  }

  lemma FieldsStep(f: seq<nat>, g: seq<nat>, fields: seq<Field>, os: seq<Maybe>, i: nat, b: seq<Byte>, room: nat)
    requires FieldsHave(fields, os) && i < |os| && |Written(b, FieldOps(f, fields, os))| <= room
    ensures |fields| == |os| && FieldsHave(fields[..i], os[..i]) && FieldsHave(fields[..i + 1], os[..i + 1]) &&
            ElemHas(fields[i].t, os[i])
    ensures var next := Written(Written(b, FieldOps(g, fields[..i], os[..i])), OneField(g, fields[i], os[i]));
            next == Written(b, FieldOps(g, fields[..i + 1], os[..i + 1])) && |next| <= room
  {
    hide FieldOps, FieldsHave, OneField, ElemHas;
    FieldsNext(g, fields, os, i);
    FieldsRelated(f, g, fields, os, false);
    StepWithin(b, FieldOps(g, fields[..i], os[..i]), OneField(g, fields[i], os[i]), FieldOps(g, fields, os),
        FieldOps(f, fields, os), room);
  }

  lemma FieldsReserve(fields: seq<Field>, os: seq<Maybe>, i: nat, n: nat)
    requires FieldsHave(fields, os) && i < |os|
    ensures |fields| == |os| && FieldsHave(fields[..i], os[..i]) && FieldsHave(fields[..i + 1], os[..i + 1]) &&
            ElemHas(fields[i].t, os[i])
    ensures Reserved(Reserved(n, FieldOps([], fields[..i], os[..i])), OneField([], fields[i], os[i])) ==
            Reserved(n, FieldOps([], fields[..i + 1], os[..i + 1]))
  {
    hide FieldOps, FieldsHave, OneField, ElemHas;
    FieldsNext([], fields, os, i);
    ReservedJoin(n, FieldOps([], fields[..i], os[..i]), OneField([], fields[i], os[i]));
  }

  lemma FieldsGrown(f: seq<nat>, g: seq<nat>, fields: seq<Field>, os: seq<Maybe>)
    requires FieldsHave(fields, os) && f <= g && forall k :: 0 <= k < |os| ==> CoversMaybe(f, os[k])
    ensures FieldOps(f, fields, os) == FieldOps(g, fields, os)
  {
    FieldsRelated(f, g, fields, os, true);
  }

  // ---------------------------------------------------------------- vectors

  lemma {:induction false} ElemsPrefix(funcs: seq<nat>, t: Type, os: seq<Maybe>, i: nat)
    requires (forall k :: 0 <= k < |os| ==> ElemHas(t, os[k])) && i <= |os|
    ensures ElemOps(funcs, t, os[..i]) <= ElemOps(funcs, t, os)
    decreases |os|
  {
    hide ElemOps, ElemHas, OneElem;
    if i == |os| {
      assert os[..i] == os;
    } else {
      var n := |os| - 1;
      ElemsTurn(funcs, t, os);
      ElemsPrefix(funcs, t, os[..n], i);
      assert os[..n][..i] == os[..i];
    }
  }

  lemma ElemsNext(funcs: seq<nat>, t: Type, os: seq<Maybe>, i: nat)
    requires (forall k :: 0 <= k < |os| ==> ElemHas(t, os[k])) && i < |os|
    ensures ElemOps(funcs, t, os[..i + 1]) == ElemOps(funcs, t, os[..i]) + OneElem(funcs, t, i, os[i])
    ensures ElemOps(funcs, t, os[..i + 1]) <= ElemOps(funcs, t, os)
  {
    hide ElemOps, ElemHas, OneElem;
    ElemsPrefix(funcs, t, os, i + 1);
    ElemsTurn(funcs, t, os[..i + 1]);
    assert os[..i + 1][..i] == os[..i];
  }

  lemma ElemsStep(f: seq<nat>, g: seq<nat>, t: Type, os: seq<Maybe>, i: nat, b: seq<Byte>, room: nat)
    requires (forall k :: 0 <= k < |os| ==> ElemHas(t, os[k])) && i < |os| && |Written(b, ElemOps(f, t, os))| <= room
    ensures var next := Written(Written(b, ElemOps(g, t, os[..i])), OneElem(g, t, i, os[i]));
            next == Written(b, ElemOps(g, t, os[..i + 1])) && |next| <= room
  {
    hide ElemOps, OneElem, ElemHas;
    ElemsNext(g, t, os, i);
    ElemsRelated(f, g, t, os, false);
    StepWithin(b, ElemOps(g, t, os[..i]), OneElem(g, t, i, os[i]), ElemOps(g, t, os), ElemOps(f, t, os), room);
  }

  lemma ElemsReserve(t: Type, os: seq<Maybe>, i: nat, n: nat)
    requires (forall k :: 0 <= k < |os| ==> ElemHas(t, os[k])) && i < |os|
    ensures Reserved(Reserved(n, ElemOps([], t, os[..i])), OneElem([], t, i, os[i])) ==
            Reserved(n, ElemOps([], t, os[..i + 1]))
  {
    hide ElemOps, OneElem, ElemHas;
    ElemsNext([], t, os, i);
    ReservedJoin(n, ElemOps([], t, os[..i]), OneElem([], t, i, os[i]));
  }

  lemma ElemsGrown(f: seq<nat>, g: seq<nat>, t: Type, os: seq<Maybe>)
    requires (forall k :: 0 <= k < |os| ==> ElemHas(t, os[k])) && f <= g && forall k :: 0 <= k < |os| ==>
             CoversMaybe(f, os[k])
    ensures ElemOps(f, t, os) == ElemOps(g, t, os)
  {
    ElemsRelated(f, g, t, os, true);
  }

  // ---------------------------------------------------------------- lists

  lemma {:induction false} ListPrefix(funcs: seq<nat>, types: seq<Type>, vs: seq<Val>, i: nat)
    requires ListHas(types, vs) && i <= |vs|
    ensures |types| == |vs| && ListHas(types[..i], vs[..i])
    ensures ListOps(funcs, types[..i], vs[..i]) <= ListOps(funcs, types, vs)
    decreases |vs|
  {
    hide ListOps, HasType, Ops;
    if i == |vs| {
      assert types[..i] == types && vs[..i] == vs;
    } else {
      var n := |vs| - 1;
      ListTurn(funcs, types, vs);
      ListPrefix(funcs, types[..n], vs[..n], i);
      assert types[..n][..i] == types[..i] && vs[..n][..i] == vs[..i];
    }
  }

  lemma ListNext(funcs: seq<nat>, types: seq<Type>, vs: seq<Val>, i: nat)
    requires ListHas(types, vs) && i < |vs|
    ensures |types| == |vs| && ListHas(types[..i], vs[..i]) && ListHas(types[..i + 1], vs[..i + 1]) &&
            HasType(types[i], vs[i])
    ensures ListOps(funcs, types[..i + 1], vs[..i + 1]) ==
            ListOps(funcs, types[..i], vs[..i]) + Ops(funcs, types[i], vs[i])
    ensures ListOps(funcs, types[..i + 1], vs[..i + 1]) <= ListOps(funcs, types, vs)
  {
    hide ListOps, ListHas, HasType, Ops;
    ListPrefix(funcs, types, vs, i + 1);
    ListTurn(funcs, types[..i + 1], vs[..i + 1]);
    assert types[..i + 1][..i] == types[..i] && vs[..i + 1][..i] == vs[..i];
  }

  lemma ListStep(f: seq<nat>, g: seq<nat>, types: seq<Type>, vs: seq<Val>, i: nat, b: seq<Byte>, room: nat)
    requires ListHas(types, vs) && i < |vs| && |Written(b, ListOps(f, types, vs))| <= room
    ensures |types| == |vs| && ListHas(types[..i], vs[..i]) && ListHas(types[..i + 1], vs[..i + 1]) &&
            HasType(types[i], vs[i])
    ensures var next := Written(Written(b, ListOps(g, types[..i], vs[..i])), Ops(g, types[i], vs[i]));
            next == Written(b, ListOps(g, types[..i + 1], vs[..i + 1])) && |next| <= room
  {
    hide ListOps, ListHas, HasType, Ops;
    ListNext(g, types, vs, i);
    ListRelated(f, g, types, vs, false);
    StepWithin(b, ListOps(g, types[..i], vs[..i]), Ops(g, types[i], vs[i]), ListOps(g, types, vs),
        ListOps(f, types, vs), room);
  }

  lemma ListReserve(types: seq<Type>, vs: seq<Val>, i: nat, n: nat)
    requires ListHas(types, vs) && i < |vs|
    ensures |types| == |vs| && ListHas(types[..i], vs[..i]) && ListHas(types[..i + 1], vs[..i + 1]) &&
            HasType(types[i], vs[i])
    ensures Reserved(Reserved(n, ListOps([], types[..i], vs[..i])), Ops([], types[i], vs[i])) ==
            Reserved(n, ListOps([], types[..i + 1], vs[..i + 1]))
  {
    hide ListOps, ListHas, HasType, Ops;
    ListNext([], types, vs, i);
    ReservedJoin(n, ListOps([], types[..i], vs[..i]), Ops([], types[i], vs[i]));
  }

  lemma ListGrown(f: seq<nat>, g: seq<nat>, types: seq<Type>, vs: seq<Val>)
    requires ListHas(types, vs) && f <= g && CoversList(f, vs)
    ensures ListOps(f, types, vs) == ListOps(g, types, vs)
  {
    ListRelated(f, g, types, vs, true);
  }

  // ---------------------------------------------------------------- tables

  lemma {:induction false} EntriesPrefix(funcs: seq<nat>, index: seq<Type>, result: Yield, es: seq<Entry>, i: nat)
    requires (forall k :: 0 <= k < |es| ==> EntryHas(index, result, es[k])) && i <= |es|
    ensures EntryOps(funcs, index, result, es[..i]) <= EntryOps(funcs, index, result, es)
    decreases |es|
  {
    hide EntryOps, EntryHas, OneEntry;
    if i == |es| {
      assert es[..i] == es;
    } else {
      var n := |es| - 1;
      EntriesTurn(funcs, index, result, es);
      EntriesPrefix(funcs, index, result, es[..n], i);
      assert es[..n][..i] == es[..i];
    }
  }

  lemma EntriesNext(funcs: seq<nat>, index: seq<Type>, result: Yield, es: seq<Entry>, i: nat)
    requires (forall k :: 0 <= k < |es| ==> EntryHas(index, result, es[k])) && i < |es|
    ensures EntryOps(funcs, index, result, es[..i + 1]) ==
            EntryOps(funcs, index, result, es[..i]) + OneEntry(funcs, index, result, es[i])
    ensures EntryOps(funcs, index, result, es[..i + 1]) <= EntryOps(funcs, index, result, es)
  {
    hide EntryOps, EntryHas, OneEntry;
    EntriesPrefix(funcs, index, result, es, i + 1);
    EntriesTurn(funcs, index, result, es[..i + 1]);
    assert es[..i + 1][..i] == es[..i];
  }

  lemma EntriesStep(f: seq<nat>, g: seq<nat>, index: seq<Type>, result: Yield, es: seq<Entry>, i: nat, b: seq<Byte>,
      room: nat)
    requires (forall k :: 0 <= k < |es| ==> EntryHas(index, result, es[k])) && i < |es|
    requires |Written(b, EntryOps(f, index, result, es))| <= room
    ensures var next := Written(Written(b, EntryOps(g, index, result, es[..i])), OneEntry(g, index, result, es[i]));
            next == Written(b, EntryOps(g, index, result, es[..i + 1])) && |next| <= room
  {
    hide EntryOps, OneEntry, EntryHas;
    EntriesNext(g, index, result, es, i);
    EntriesRelated(f, g, index, result, es, false);
    StepWithin(b, EntryOps(g, index, result, es[..i]), OneEntry(g, index, result, es[i]),
        EntryOps(g, index, result, es), EntryOps(f, index, result, es), room);
  }

  lemma EntriesReserve(index: seq<Type>, result: Yield, es: seq<Entry>, i: nat, n: nat)
    requires (forall k :: 0 <= k < |es| ==> EntryHas(index, result, es[k])) && i < |es|
    ensures Reserved(Reserved(n, EntryOps([], index, result, es[..i])), OneEntry([], index, result, es[i])) ==
            Reserved(n, EntryOps([], index, result, es[..i + 1]))
  {
    hide EntryOps, OneEntry, EntryHas;
    EntriesNext([], index, result, es, i);
    ReservedJoin(n, EntryOps([], index, result, es[..i]), OneEntry([], index, result, es[i]));
  }

  lemma EntriesGrown(f: seq<nat>, g: seq<nat>, index: seq<Type>, result: Yield, es: seq<Entry>)
    requires (forall k :: 0 <= k < |es| ==> EntryHas(index, result, es[k])) && f <= g && forall k :: 0 <= k < |es| ==>
             CoversEntry(f, es[k])
    ensures EntryOps(f, index, result, es) == EntryOps(g, index, result, es)
  {
    EntriesRelated(f, g, index, result, es, true);
  }
}
