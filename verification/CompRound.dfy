/** What is written can be recovered: reading a key gives back the value it was made from. */
module CompRound {
  import opened Octet
  import opened HashBytes
  import opened CompVals

  /** The buffer after one write. */
  function After(b: seq<Byte>, p: Put): (r: seq<Byte>)
    ensures b <= r && |r| == AlignUp(|b|, p.align) + |p.data|
  {
    Padded(b, p.align) + p.data
  }

  lemma WrittenOne(b: seq<Byte>, p: Put, ops: seq<Put>)
    ensures Written(b, [p] + ops) == Written(After(b, p), ops)
    ensures Written(b, [p]) == After(b, p)
  {
    assert ([p] + ops)[1..] == ops;
    assert [p][1..] == [];
  }

  /** Both parts of a script are in whatever begins with the whole of it. */
  lemma JoinFits(b: seq<Byte>, x: seq<Put>, y: seq<Put>, whole: seq<Byte>)
    requires Written(b, x + y) <= whole
    ensures Written(b, x) <= whole && Written(Written(b, x), y) <= whole
    ensures Written(b, x + y) == Written(Written(b, x), y)
  {
    WrittenJoin(b, x, y);
  }

  lemma OneFits(b: seq<Byte>, p: Put, ops: seq<Put>, whole: seq<Byte>)
    requires Written(b, [p] + ops) <= whole
    ensures After(b, p) <= whole && Written(After(b, p), ops) <= whole
    ensures Written(b, [p] + ops) == Written(After(b, p), ops)
  {
    WrittenOne(b, p, ops);
  }

  lemma PutReads(b: seq<Byte>, p: Put, whole: seq<Byte>)
    requires After(b, p) <= whole
    ensures Read(whole, |b|, |p.data|, p.align) == Ok(p.data, |After(b, p)|)
  {
    ReadsBack(b, p, whole);
  }

  lemma SizeReads(b: seq<Byte>, n: nat, whole: seq<Byte>)
    requires n < TWO32 && After(b, Size4(n)) <= whole
    ensures ReadSize(whole, |b|) == Ok(n, |After(b, Size4(n))|)
  {
    PutReads(b, Size4(n), whole);
    Word4(n);
  }

  lemma FlagReads(b: seq<Byte>, p: Put, given: bool, whole: seq<Byte>)
    requires p == Flag(given) || p == Present(given)
    requires After(b, p) <= whole
    ensures ReadFlag(whole, |b|) == Ok(given, |After(b, p)|)
  {
    PutReads(b, p, whole);
  }

  /** The table of functions used for writing has only been added to since. */
  ghost predicate Grown(funcs: seq<nat>, funcs': seq<nat>) { funcs <= funcs' && |funcs| <= TWO32 }

  lemma IntReads(b: seq<Byte>, i: int, whole: seq<Byte>)
    requires -TWO63 <= i < TWO63 && After(b, Put(Word(Unsigned(i), 8), 8, 8, 8)) <= whole
    ensures Decode([], TInt, whole, |b|) == Ok(Int(i), |After(b, Put(Word(Unsigned(i), 8), 8, 8, 8))|)
  {
    PutReads(b, Put(Word(Unsigned(i), 8), 8, 8, 8), whole);
    Word8(Unsigned(i));
  }

  lemma SubnetReads(b: seq<Byte>, prefix: seq<Byte>, width: nat, whole: seq<Byte>)
    requires |prefix| == 16 && width < 256 && After(b, Put(prefix + Word(width, 4), 4, 20, 4)) <= whole
    ensures Decode([], TSubnet, whole, |b|) ==
            Ok(Subnet(prefix, width), |After(b, Put(prefix + Word(width, 4), 4, 20, 4))|)
  {
    hide After, Word, Number, AlignUp;
    var p, at := Put(prefix + Word(width, 4), 4, 20, 4), AlignUp(|b|, 4);
    PutReads(b, p, whole);
    Word4(width);
    assert p.data[..16] == prefix && p.data[16..20] == Word(width, 4);
    SliceOfSlice(whole, at, 16, 20);
    StaysAligned(|b|);
  }

  lemma StaysAligned(n: nat)
    ensures AlignUp(AlignUp(n, 4) + 16, 4) == AlignUp(n, 4) + 16
  {
    assert AlignUp(n, 4) % 4 == 0;
  }

  lemma SliceOfSlice(s: seq<Byte>, at: nat, i: nat, j: nat)
    requires i <= j && at + j <= |s|
    ensures s[at..at + i] == s[at..at + j][..i] && s[at + i..at + j] == s[at..at + j][i..j]
  {
  }

  lemma StringReads(b: seq<Byte>, text: seq<Byte>, whole: seq<Byte>)
    requires |text| < TWO31
    requires Written(b, [Size4(|text|), Put(text, 0, |text|, 0)]) <= whole
    ensures Decode([], TString, whole, |b|) == Ok(Str(text), |Written(b, [Size4(|text|), Put(text, 0, |text|, 0)])|)
  {
    var p, q := Size4(|text|), Put(text, 0, |text|, 0);
    assert [p, q] == [p] + [q];
    WrittenOne(b, p, [q]);
    WrittenOne(After(b, p), q, []);
    SizeReads(b, |text|, whole);
    PutReads(After(b, p), q, whole);
  }

  lemma FuncReads(funcs: seq<nat>, funcs': seq<nat>, f: nat, b: seq<Byte>, whole: seq<Byte>)
    requires Grown(funcs, funcs') && f in funcs && After(b, Size4(IdOf(funcs, f))) <= whole
    ensures Decode(funcs', TFunc, whole, |b|) == Ok(Func(f), |After(b, Size4(IdOf(funcs, f)))|)
  {
    SizeReads(b, IdOf(funcs, f), whole);
  }

  /** Values without parts. */
  lemma ScalarReads(funcs: seq<nat>, funcs': seq<nat>, t: Type, v: Val, b: seq<Byte>, whole: seq<Byte>)
    requires HasType(t, v) && Grown(funcs, funcs') && Covers(funcs, v)
    requires !t.TRecord? && !t.TVector? && !t.TList? && !t.TTable?
    requires Written(b, Ops(funcs, t, v)) <= whole
    ensures Decode(funcs', t, whole, |b|) == Ok(v, |Written(b, Ops(funcs, t, v))|)
  {
    hide Written, Padded, After;
    var ops := Ops(funcs, t, v);
    if !t.TString? {
      WrittenOne(b, ops[0], []);
      assert ops == [ops[0]];
    }
    match t {
      case TInt =>
        IntReads(b, v.i, whole);
      case TCount =>
        PutReads(b, ops[0], whole);
        Word8(v.u);
      case TDouble =>
        PutReads(b, ops[0], whole);
      case TAddr =>
        PutReads(b, ops[0], whole);
      case TSubnet =>
        SubnetReads(b, v.prefix, v.width, whole);
      case TString =>
        StringReads(b, v.text, whole);
      case TFunc =>
        FuncReads(funcs, funcs', v.f, b, whole);
    }
  }

  /** Recovering a value from any key that begins with what was written for it. */
  lemma {:induction false} RoundTrip(funcs: seq<nat>, funcs': seq<nat>, t: Type, v: Val, b: seq<Byte>, whole: seq<Byte>)
    requires HasType(t, v) && Grown(funcs, funcs') && Covers(funcs, v)
    requires Written(b, Ops(funcs, t, v)) <= whole
    ensures Decode(funcs', t, whole, |b|) == Ok(v, |Written(b, Ops(funcs, t, v))|)
    decreases v, 2
  {
    hide Written, Size4, ReadSize, After, FieldOps, ElemOps, ListOps, EntryOps, DecodeFields, DecodeElems;
    hide DecodeEntries;
    hide FieldsHave, ListHas, EntryHas, ElemHas, CoversMaybe, CoversList, CoversEntry;
    match t {
      case TRecord(fields) =>
        FieldsRound(funcs, funcs', fields, v.fields, b, whole);
      case TVector(elem) =>
        var ops := ElemOps(funcs, elem, v.elems);
        WrittenOne(b, Size4(|v.elems|), ops);
        SizeReads(b, |v.elems|, whole);
        ElemsRound(funcs, funcs', t, v.elems, After(b, Size4(|v.elems|)), whole);
      case TList(types) =>
        SizedRound(funcs, funcs', types, v.vals, b, whole);
      case TTable(index, result) =>
        var ops := EntryOps(funcs, index, result, v.entries);
        WrittenOne(b, Size4(|v.entries|), ops);
        SizeReads(b, |v.entries|, whole);
        EntriesRound(funcs, funcs', t, v.entries, After(b, Size4(|v.entries|)), whole);
      case _ =>
        ScalarReads(funcs, funcs', t, v, b, whole);
    }
  }

  lemma {:induction false} MaybeRound(funcs: seq<nat>, funcs': seq<nat>, t: Type, o: Maybe, b: seq<Byte>,
      whole: seq<Byte>)
    requires ElemHas(t, o) && Grown(funcs, funcs') && CoversMaybe(funcs, o) && o.Just?
    requires Written(b, MaybeOps(funcs, t, o)) <= whole
    ensures Decode(funcs', t, whole, |b|) == Ok(o.v, |Written(b, MaybeOps(funcs, t, o))|)
    decreases o, 1
  {
    hide Written, Ops, Decode, HasType, Covers;
    RoundTrip(funcs, funcs', t, o.v, b, whole);
  }

  lemma {:induction false} FieldRound(funcs: seq<nat>, funcs': seq<nat>, f: Field, o: Maybe, b: seq<Byte>,
      whole: seq<Byte>)
    requires ElemHas(f.t, o) && (o.Absent? ==> f.optional) && Grown(funcs, funcs') && CoversMaybe(funcs, o)
    requires Written(b, OneField(funcs, f, o)) <= whole
    ensures DecodeField(funcs', f, whole, |b|) == Ok(o, |Written(b, OneField(funcs, f, o))|)
    decreases o, 2
  {
    hide Decode, Written, After, ElemHas, CoversMaybe, ReadFlag, Flag;
    var ops := MaybeOps(funcs, f.t, o);
    var b' := b;
    if f.optional {
      b' := After(b, Flag(o.Just?));
      WrittenOne(b, Flag(o.Just?), ops);
      FlagReads(b, Flag(o.Just?), o.Just?, whole);
    } else {
      assert [] + ops == ops;
    }
    if o.Just? {
      MaybeRound(funcs, funcs', f.t, o, b', whole);
    } else {
      NothingWritten(b');
    }
  }

  lemma NothingWritten(b: seq<Byte>)
    ensures Written(b, []) == b
  {
  }

  lemma FieldsTurn(funcs: seq<nat>, fields: seq<Field>, os: seq<Maybe>)
    requires FieldsHave(fields, os) && os != []
    ensures var n := |os| - 1;
            && |fields| == |os| && FieldsHave(fields[..n], os[..n])
            && ElemHas(fields[n].t, os[n]) && (os[n].Absent? ==> fields[n].optional)
            && FieldOps(funcs, fields, os) == FieldOps(funcs, fields[..n], os[..n]) + OneField(funcs, fields[n], os[n])
  {
    hide OneField, ElemHas;
  }

  lemma DecodeFieldsTurn(funcs: seq<nat>, fields: seq<Field>, buf: seq<Byte>, pos: nat, os: seq<Maybe>, p: nat,
      o: Maybe, q: nat)
    requires fields != [] && DecodeFields(funcs, fields[..|fields| - 1], buf, pos) == Ok(os, p)
    requires DecodeField(funcs, fields[|fields| - 1], buf, p) == Ok(o, q)
    ensures DecodeFields(funcs, fields, buf, pos) == Ok(os + [o], q)
  {
    hide DecodeField;
  }

  lemma NoFields(funcs: seq<nat>, funcs': seq<nat>, fields: seq<Field>, os: seq<Maybe>, b: seq<Byte>, whole: seq<Byte>)
    requires FieldsHave(fields, os) && os == []
    ensures DecodeFields(funcs', fields, whole, |b|) == Ok(os, |Written(b, FieldOps(funcs, fields, os))|)
  {
  }

  lemma {:induction false} FieldsRound(funcs: seq<nat>, funcs': seq<nat>, fields: seq<Field>, os: seq<Maybe>,
      b: seq<Byte>, whole: seq<Byte>)
    requires FieldsHave(fields, os) && Grown(funcs, funcs') && forall i :: 0 <= i < |os| ==> CoversMaybe(funcs, os[i])
    requires Written(b, FieldOps(funcs, fields, os)) <= whole
    ensures DecodeFields(funcs', fields, whole, |b|) == Ok(os, |Written(b, FieldOps(funcs, fields, os))|)
    decreases os, 0
  {
    hide Written, OneField, CoversMaybe, DecodeField, ElemHas, FieldOps, FieldsHave, DecodeFields;
    if os == [] {
      NoFields(funcs, funcs', fields, os, b, whole);
    } else {
      var n := |os| - 1;
      FieldsTurn(funcs, fields, os);
      var head, last := FieldOps(funcs, fields[..n], os[..n]), OneField(funcs, fields[n], os[n]);
      JoinFits(b, head, last, whole);
      FieldsRound(funcs, funcs', fields[..n], os[..n], b, whole);
      FieldRound(funcs, funcs', fields[n], os[n], Written(b, head), whole);
      DecodeFieldsTurn(funcs', fields, whole, |b|, os[..n], |Written(b, head)|, os[n],
          |Written(Written(b, head), last)|);
      assert os[..n] + [os[n]] == os;
    }
  }

  lemma {:induction false} ElemRound(funcs: seq<nat>, funcs': seq<nat>, t: Type, n: nat, o: Maybe, b: seq<Byte>,
      whole: seq<Byte>)
    requires t.TVector? && n < TWO32 && Grown(funcs, funcs') && ElemHas(t.elem, o) && CoversMaybe(funcs, o)
    requires Written(b, OneElem(funcs, t.elem, n, o)) <= whole
    ensures var after := |Written(b, OneElem(funcs, t.elem, n, o))|;
            var size := ReadSize(whole, |b|);
            && size.Ok? && size.v == n
            && var flag := ReadFlag(whole, size.pos);
               && flag.Ok? && flag.v == o.Just?
               && if o.Just? then Decode(funcs', t.elem, whole, flag.pos) == Ok(o.v, after) else flag.pos == after
    decreases o, 2
  {
    hide Written, After, Size4, Present, CoversMaybe, ElemHas, Decode, ReadSize, ReadFlag, MaybeOps;
    var p, q, ops := Size4(n), Present(o.Just?), MaybeOps(funcs, t.elem, o);
    OneFits(b, p, [q] + ops, whole);
    var b2 := After(b, p);
    OneFits(b2, q, ops, whole);
    SizeReads(b, n, whole);
    FlagReads(b2, q, o.Just?, whole);
    if o.Just? {
      MaybeRound(funcs, funcs', t.elem, o, After(b2, q), whole);
    } else {
      NothingWritten(After(b2, q));
      NoOps(funcs, t.elem, o);
    }
  }

  lemma ElemsTurn(funcs: seq<nat>, t: Type, os: seq<Maybe>)
    requires os != [] && forall i :: 0 <= i < |os| ==> ElemHas(t, os[i])
    ensures var n := |os| - 1;
            ElemOps(funcs, t, os) == ElemOps(funcs, t, os[..n]) + OneElem(funcs, t, n, os[n])
  {
    hide OneElem, ElemHas;
  }

  lemma DecodeElemsTurn(funcs: seq<nat>, t: Type, n: nat, buf: seq<Byte>, pos: nat, os: seq<Maybe>, p: nat, o: Maybe,
      q: nat)
    requires t.TVector? && DecodeElems(funcs, t, n, buf, pos) == Ok(os, p) && |os| == n
    requires var size := ReadSize(buf, p);
             && size.Ok? && size.v == n
             && var flag := ReadFlag(buf, size.pos);
                && flag.Ok? && flag.v == o.Just?
                && if o.Just? then Decode(funcs, t.elem, buf, flag.pos) == Ok(o.v, q) else flag.pos == q
    ensures DecodeElems(funcs, t, n + 1, buf, pos) == Ok(os + [o], q)
  {
    hide Decode, ReadSize, ReadFlag;
    assert Assigned(os, n, o) == os + [o];
    assert n + 1 - 1 == n;
  }

  lemma NoElems(funcs: seq<nat>, funcs': seq<nat>, t: Type, os: seq<Maybe>, b: seq<Byte>, whole: seq<Byte>)
    requires t.TVector? && os == []
    ensures DecodeElems(funcs', t, |os|, whole, |b|) == Ok(os, |Written(b, ElemOps(funcs, t.elem, os))|)
  {
  }

  lemma {:induction false} ElemsRound(funcs: seq<nat>, funcs': seq<nat>, t: Type, os: seq<Maybe>, b: seq<Byte>,
      whole: seq<Byte>)
    requires t.TVector? && |os| < TWO32 && Grown(funcs, funcs')
    requires (forall i :: 0 <= i < |os| ==> ElemHas(t.elem, os[i])) &&
             (forall i :: 0 <= i < |os| ==> CoversMaybe(funcs, os[i]))
    requires Written(b, ElemOps(funcs, t.elem, os)) <= whole
    ensures DecodeElems(funcs', t, |os|, whole, |b|) == Ok(os, |Written(b, ElemOps(funcs, t.elem, os))|)
    decreases os, 0
  {
    hide Written, CoversMaybe, ElemHas, Decode, ReadSize, ReadFlag, OneElem, ElemOps, DecodeElems;
    if os == [] {
      NoElems(funcs, funcs', t, os, b, whole);
    } else {
      var n := |os| - 1;
      ElemsTurn(funcs, t.elem, os);
      var head, last := ElemOps(funcs, t.elem, os[..n]), OneElem(funcs, t.elem, n, os[n]);
      JoinFits(b, head, last, whole);
      ElemsRound(funcs, funcs', t, os[..n], b, whole);
      ElemRound(funcs, funcs', t, n, os[n], Written(b, head), whole);
      DecodeElemsTurn(funcs', t, n, whole, |b|, os[..n], |Written(b, head)|, os[n], |Written(Written(b, head), last)|);
      assert os[..n] + [os[n]] == os;
    }
  }

  lemma NoOps(funcs: seq<nat>, t: Type, o: Maybe)
    requires ElemHas(t, o) && o.Absent?
    ensures MaybeOps(funcs, t, o) == []
  {
  }

  lemma CoversTurn(funcs: seq<nat>, vs: seq<Val>)
    requires CoversList(funcs, vs) && vs != []
    ensures CoversList(funcs, vs[..|vs| - 1]) && Covers(funcs, vs[|vs| - 1])
  {
    hide Covers;
  }

  lemma ListTurn(funcs: seq<nat>, types: seq<Type>, vs: seq<Val>)
    requires ListHas(types, vs) && vs != []
    ensures var n := |vs| - 1;
            && |types| == |vs| && ListHas(types[..n], vs[..n]) && HasType(types[n], vs[n])
            && ListOps(funcs, types, vs) == ListOps(funcs, types[..n], vs[..n]) + Ops(funcs, types[n], vs[n])
  {
    hide Ops, HasType;
  }

  lemma DecodeListTurn(funcs: seq<nat>, types: seq<Type>, buf: seq<Byte>, pos: nat, vs: seq<Val>, p: nat, v: Val,
      q: nat)
    requires types != [] && DecodeList(funcs, types[..|types| - 1], buf, pos) == Ok(vs, p)
    requires Decode(funcs, types[|types| - 1], buf, p) == Ok(v, q)
    ensures DecodeList(funcs, types, buf, pos) == Ok(vs + [v], q)
  {
    hide Decode;
  }

  lemma NoList(funcs: seq<nat>, funcs': seq<nat>, types: seq<Type>, vs: seq<Val>, b: seq<Byte>, whole: seq<Byte>)
    requires ListHas(types, vs) && vs == []
    ensures DecodeList(funcs', types, whole, |b|) == Ok(vs, |Written(b, ListOps(funcs, types, vs))|)
  {
  }

  lemma {:induction false} ListRound(funcs: seq<nat>, funcs': seq<nat>, types: seq<Type>, vs: seq<Val>, b: seq<Byte>,
      whole: seq<Byte>)
    requires ListHas(types, vs) && Grown(funcs, funcs') && CoversList(funcs, vs)
    requires Written(b, ListOps(funcs, types, vs)) <= whole
    ensures DecodeList(funcs', types, whole, |b|) == Ok(vs, |Written(b, ListOps(funcs, types, vs))|)
    decreases vs, 0
  {
    hide Written, Ops, Decode, HasType, Covers, CoversList, ListOps, ListHas, DecodeList;
    if vs == [] {
      NoList(funcs, funcs', types, vs, b, whole);
    } else {
      var n := |vs| - 1;
      CoversTurn(funcs, vs);
      ListTurn(funcs, types, vs);
      var head, last := ListOps(funcs, types[..n], vs[..n]), Ops(funcs, types[n], vs[n]);
      JoinFits(b, head, last, whole);
      ListRound(funcs, funcs', types[..n], vs[..n], b, whole);
      RoundTrip(funcs, funcs', types[n], vs[n], Written(b, head), whole);
      DecodeListTurn(funcs', types, whole, |b|, vs[..n], |Written(b, head)|, vs[n], |Written(Written(b, head), last)|);
      assert vs[..n] + [vs[n]] == vs;
    }
  }

  lemma {:induction false} SizedRound(funcs: seq<nat>, funcs': seq<nat>, types: seq<Type>, vs: seq<Val>, b: seq<Byte>,
      whole: seq<Byte>)
    requires |vs| < TWO31 && ListHas(types, vs) && Grown(funcs, funcs') && CoversList(funcs, vs)
    requires Written(b, [Size4(|vs|)] + ListOps(funcs, types, vs)) <= whole
    ensures DecodeSized(funcs', types, whole, |b|) == Ok(vs, |Written(b, [Size4(|vs|)] + ListOps(funcs, types, vs))|)
    decreases vs, 1
  {
    hide Written, After, Size4, ListOps, DecodeList, ReadSize;
    OneFits(b, Size4(|vs|), ListOps(funcs, types, vs), whole);
    SizeReads(b, |vs|, whole);
    ListRound(funcs, funcs', types, vs, After(b, Size4(|vs|)), whole);
  }

  lemma {:induction false} EntryRound(funcs: seq<nat>, funcs': seq<nat>, t: Type, e: Entry, b: seq<Byte>,
      whole: seq<Byte>)
    requires t.TTable? && Grown(funcs, funcs') && EntryHas(t.index, t.result, e) && CoversEntry(funcs, e)
    requires Written(b, OneEntry(funcs, t.index, t.result, e)) <= whole
    ensures var after := |Written(b, OneEntry(funcs, t.index, t.result, e))|;
            var index := DecodeSized(funcs', t.index, whole, |b|);
            && index.Ok? && index.v == e.index
            && if t.result.YieldOf? then
                e.result.Just? && Decode(funcs', t.result.t, whole, index.pos) == Ok(e.result.v, after)
               else e.result.Absent? && index.pos == after
    decreases e, 0
  {
    hide Written, Size4, ListOps, MaybeOps, Decode, DecodeSized, ListHas, HasType, CoversList, CoversMaybe;
    var keys := [Size4(|e.index|)] + ListOps(funcs, t.index, e.index);
    var ops := if t.result.YieldOf? then MaybeOps(funcs, t.result.t, e.result) else [];
    JoinFits(b, keys, ops, whole);
    SizedRound(funcs, funcs', t.index, e.index, b, whole);
    if t.result.YieldOf? {
      MaybeRound(funcs, funcs', t.result.t, e.result, Written(b, keys), whole);
    } else {
      NothingWritten(Written(b, keys));
    }
  }

  lemma EntriesTurn(funcs: seq<nat>, index: seq<Type>, result: Yield, es: seq<Entry>)
    requires es != [] && forall i :: 0 <= i < |es| ==> EntryHas(index, result, es[i])
    ensures var n := |es| - 1;
            EntryOps(funcs, index, result, es) ==
                EntryOps(funcs, index, result, es[..n]) + OneEntry(funcs, index, result, es[n])
  {
    hide OneEntry, EntryHas;
  }

  lemma DecodeEntriesTurn(funcs: seq<nat>, t: Type, n: nat, buf: seq<Byte>, pos: nat, es: seq<Entry>, p: nat, e: Entry,
      q: nat)
    requires t.TTable? && n > 0 && DecodeEntries(funcs, t, n - 1, buf, pos) == Ok(es, p)
    requires DecodeSized(funcs, t.index, buf, p).Ok? && DecodeSized(funcs, t.index, buf, p).v == e.index
    requires var r := DecodeSized(funcs, t.index, buf, p).pos;
             if t.result.YieldOf? then e.result.Just? && Decode(funcs, t.result.t, buf, r) == Ok(e.result.v, q)
             else e.result.Absent? && r == q
    ensures DecodeEntries(funcs, t, n, buf, pos) == Ok(es + [e], q)
  {
    hide Decode, DecodeSized;
  }

  lemma NoEntries(funcs: seq<nat>, funcs': seq<nat>, t: Type, es: seq<Entry>, b: seq<Byte>, whole: seq<Byte>)
    requires t.TTable? && es == []
    ensures DecodeEntries(funcs', t, |es|, whole, |b|) == Ok(es, |Written(b, EntryOps(funcs, t.index, t.result, es))|)
  {
  }

  lemma {:induction false} EntriesRound(funcs: seq<nat>, funcs': seq<nat>, t: Type, es: seq<Entry>, b: seq<Byte>,
      whole: seq<Byte>)
    requires t.TTable? && Grown(funcs, funcs')
    requires (forall i :: 0 <= i < |es| ==> EntryHas(t.index, t.result, es[i])) &&
             (forall i :: 0 <= i < |es| ==> CoversEntry(funcs, es[i]))
    requires Written(b, EntryOps(funcs, t.index, t.result, es)) <= whole
    ensures DecodeEntries(funcs', t, |es|, whole, |b|) == Ok(es, |Written(b, EntryOps(funcs, t.index, t.result, es))|)
    decreases es, 1
  {
    hide Written, OneEntry, Decode, DecodeSized, EntryHas, CoversEntry, DecodeEntries, EntryOps;
    if es == [] {
      NoEntries(funcs, funcs', t, es, b, whole);
    } else {
      var n := |es| - 1;
      EntriesTurn(funcs, t.index, t.result, es);
      var head, last := EntryOps(funcs, t.index, t.result, es[..n]), OneEntry(funcs, t.index, t.result, es[n]);
      JoinFits(b, head, last, whole);
      EntriesRound(funcs, funcs', t, es[..n], b, whole);
      EntryRound(funcs, funcs', t, es[n], Written(b, head), whole);
      DecodeEntriesTurn(funcs', t, n + 1, whole, |b|, es[..n], |Written(b, head)|, es[n],
          |Written(Written(b, head), last)|);
      assert es[..n] + [es[n]] == es;
    }
  }
}
