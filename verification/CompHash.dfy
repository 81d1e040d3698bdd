/** The composite hash: reserving, writing and recovering keys, and the table of function ids that
    grows as functions are met. */
module CompHash {
  import opened Options
  import opened Seqs
  import opened Octet
  import opened HashBytes
  import opened CompVals
  import opened CompRound
  import opened CompOrder
  import opened CompCanon
  import opened CompKeys
  import opened CompGap
  import opened CompWhole
  import opened CompAgain
  import opened CompPass
  import opened CompFound
  import opened CompMade
  import opened CompSteps
  import opened HashKeys
  import opened CompReserve
  import CompRecover

  // ---------------------------------------------------------------- growing function tables

  lemma {:induction false} CoversMore(f: seq<nat>, g: seq<nat>, v: Val)
    requires f <= g && Covers(f, v)
    ensures Covers(g, v)
    decreases v
  {
    match v {
      case Record(os) =>
        forall i | 0 <= i < |os| ensures CoversMaybe(g, os[i]) {
          CoversMoreMaybe(f, g, os[i]);
        }
      case Vector(os) =>
        forall i | 0 <= i < |os| ensures CoversMaybe(g, os[i]) {
          CoversMoreMaybe(f, g, os[i]);
        }
      case List(vs) =>
        CoversMoreList(f, g, vs);
      case Table(es) =>
        forall i | 0 <= i < |es| ensures CoversEntry(g, es[i]) {
          CoversMoreEntry(f, g, es[i]);
        }
      case _ =>
    }
  }

  lemma {:induction false} CoversMoreMaybe(f: seq<nat>, g: seq<nat>, o: Maybe)
    requires f <= g && CoversMaybe(f, o)
    ensures CoversMaybe(g, o)
    decreases o
  {
    if o.Just? {
      CoversMore(f, g, o.v);
    }
  }

  lemma {:induction false} CoversMoreList(f: seq<nat>, g: seq<nat>, vs: seq<Val>)
    requires f <= g && CoversList(f, vs)
    ensures CoversList(g, vs)
    decreases vs
  {
    forall i | 0 <= i < |vs| ensures Covers(g, vs[i]) {
      CoversMore(f, g, vs[i]);
    }
  }

  lemma {:induction false} CoversMoreEntry(f: seq<nat>, g: seq<nat>, e: Entry)
    requires f <= g && CoversEntry(f, e)
    ensures CoversEntry(g, e)
    decreases e
  {
    CoversMoreList(f, g, e.index);
    CoversMoreMaybe(f, g, e.result);
  }

  lemma {:induction false} NewId(funcs: seq<nat>, f: nat)
    requires f !in funcs
    ensures IdOf(funcs + [f], f) == |funcs|
  {
    if funcs != [] {
      assert (funcs + [f])[1..] == funcs[1..] + [f];
      NewId(funcs[1..], f);
    }
  }

  lemma SubnetParts(b: seq<Byte>, prefix: seq<Byte>, width: nat)
    requires |prefix| == 16
    ensures Padded(Padded(b, 4) + prefix, 4) + Word(width, 4) == After(b, Put(prefix + Word(width, 4), 4, 20, 4))
  {
    StaysAligned(|b|);
  }

  /** An allocation that begins where another ends: the length of what is written does not depend on
      the function table. */
  lemma RoomStays(b: seq<Byte>, x: seq<Put>, y: seq<Put>, room: nat)
    requires SameRooms(x, y) && |Written(b, x)| <= room
    ensures |Written(b, y)| <= room
  {
    RelatedLength(b, b, x, y);
  }

  /** One write and the rest of a script fit. */
  lemma SplitOne(b: seq<Byte>, p: Put, ops: seq<Put>, room: nat)
    requires |Written(b, [p] + ops)| <= room
    ensures |After(b, p)| <= room && |Written(After(b, p), ops)| <= room
    ensures Written(b, [p] + ops) == Written(After(b, p), ops)
  {
    WrittenOne(b, p, ops);
  }

  /** What a key is made from: a value, or a list of values. */
  datatype Arg = Bare(v: Val) | Listed(vs: seq<Val>)

  class CompositeHash {
    const types: seq<Type>
    /** The functions met so far, by id, and their ids. */
    var funcs: seq<nat>
    var ids: map<nat, nat>

    ghost predicate Valid()
      reads this
    {
      && Distinct(funcs) && (forall f :: f in funcs ==> f < TWO32)
      && (forall f :: f in ids <==> f in funcs)
      && (forall f :: f in ids ==> ids[f] == IdOf(funcs, f))
    }

    constructor (types: seq<Type>)
      ensures Valid() && this.types == types && funcs == []
    {
      this.types, funcs, ids := types, [], map[];
    }

    /** The id of a function, a new one if it has none. */
    method FuncId(f: nat) returns (id: nat)
      requires Valid() && f < TWO32
      modifies this`funcs, this`ids
      ensures Valid() && funcs == (if f in old(funcs) then old(funcs) else old(funcs) + [f]) && id == IdOf(funcs, f)
    {
      if f in ids {
        return ids[f];
      }
      id := |funcs|;
      NewId(funcs, f);
      forall g | g in funcs ensures IdOf(funcs + [f], g) == IdOf(funcs, g) {
        IdStays(funcs, funcs + [f], g);
      }
      funcs := funcs + [f];
      ids := ids[f := id];
    }

    lemma FuncsFit()
      requires Valid()
      ensures |funcs| <= TWO32
    {
      hide IdOf;
      forall i | 0 <= i < |funcs| ensures funcs[i] < TWO32 {
        assert funcs[i] in funcs;
      }
      DistinctFits(funcs, TWO32);
    }

    // ---------------------------------------------------------------- writing

    method WriteScalar(hk: HashKey, t: Type, v: Val)
      requires Valid() && hk.Valid() && hk.key != null && HasType(t, v) && Scalar(t)
      requires |Written(hk.Contents(), Ops(funcs, t, v))| <= hk.keySize
      modifies this`funcs, this`ids, hk`writeSize, hk.key
      ensures Valid() && hk.Valid() && old(funcs) <= funcs && Covers(funcs, v)
      ensures hk.Contents() == Written(old(hk.Contents()), Ops(funcs, t, v))
    {
      hide Written, Padded, After, IdOf, AlignUp;
      ghost var b := hk.Contents();
      match t {
        case TInt =>
          OneWritten(b, Put(Word(Unsigned(v.i), 8), 8, 8, 8));
          hk.Put(Put(Word(Unsigned(v.i), 8), 8, 8, 8));
        case TCount =>
          OneWritten(b, Put(Word(v.u, 8), 8, 8, 8));
          hk.Put(Put(Word(v.u, 8), 8, 8, 8));
        case TDouble =>
          OneWritten(b, Put(v.word, 8, 8, 8));
          hk.Put(Put(v.word, 8, 8, 8));
        case TAddr =>
          OneWritten(b, Put(v.bytes, 4, 16, 4));
          hk.Put(Put(v.bytes, 4, 16, 4));
        case TSubnet =>
          WriteSubnet(hk, v.prefix, v.width);
        case TString =>
          WriteString(hk, v.text);
        case TFunc =>
          OneWritten(b, Size4(IdOf(funcs, v.f)));
          var id := FuncId(v.f);
          OneWritten(b, Size4(id));
          hk.Put(Size4(id));
      }
    }

    method WriteSubnet(hk: HashKey, prefix: seq<Byte>, width: nat)
      requires hk.Valid() && hk.key != null && |prefix| == 16
      requires |Written(hk.Contents(), [Put(prefix + Word(width, 4), 4, 20, 4)])| <= hk.keySize
      modifies hk`writeSize, hk.key
      ensures hk.Valid() && hk.Contents() == Written(old(hk.Contents()), [Put(prefix + Word(width, 4), 4, 20, 4)])
    {
      ghost var b := hk.Contents();
      OneWritten(b, Put(prefix + Word(width, 4), 4, 20, 4));
      SubnetParts(b, prefix, width);
      hide Written, Word, After;
      hk.Write(prefix, 4);
      hk.Write(Word(width, 4), 4);
    }

    method WriteString(hk: HashKey, text: seq<Byte>)
      requires hk.Valid() && hk.key != null && |text| < TWO31
      requires |Written(hk.Contents(), [Size4(|text|), Put(text, 0, |text|, 0)])| <= hk.keySize
      modifies hk`writeSize, hk.key
      ensures hk.Valid() && hk.Contents() == Written(old(hk.Contents()), [Size4(|text|), Put(text, 0, |text|, 0)])
    {
      ghost var b := hk.Contents();
      assert [Size4(|text|), Put(text, 0, |text|, 0)] == [Size4(|text|)] + [Put(text, 0, |text|, 0)];
      SplitOne(b, Size4(|text|), [Put(text, 0, |text|, 0)], hk.keySize);
      OneWritten(After(b, Size4(|text|)), Put(text, 0, |text|, 0));
      hide Written, After;
      hk.Put(Size4(|text|));
      hk.Put(Put(text, 0, |text|, 0));
    }

    /** Write a value that is there; fails if a yield inside is not found. */
    method WriteVal(hk: HashKey, g: Pass, d: nat, t: Type, v: Val) returns (ok: bool)
      requires Valid() && hk.Valid() && hk.key != null && HasType(t, v)
      requires |Written(hk.Contents(), Ops(funcs, t, Form(g, d, t, v)))| <= hk.keySize
      modifies this`funcs, this`ids, hk`writeSize, hk.key
      ensures Valid() && hk.Valid() && old(funcs) <= funcs && (ok <==> Gets(g, d, t, v))
      ensures ok ==> Covers(funcs, Form(g, d, t, v))
      ensures ok ==> hk.Contents() == Written(old(hk.Contents()), Ops(funcs, t, Form(g, d, t, v)))
      decreases t, 2
    {
      hide Written, Size4, After, FieldOps, ElemOps, ListOps, EntryOps, IdOf, CompositeHash.Valid, HashKey.Valid;
      hide FieldsHave, ListHas, EntryHas, ElemHas, CoversMaybe, CoversList, CoversEntry, FormFields, FormElems;
      hide FormList, FormTable, Gets, GetsFields, GetsMaybe, GetsList, GetsEntries;
      GetsTurn(g, d, t, v);
      match t {
        case TRecord(fields) =>
          ok := WriteFields(hk, g, d, fields, v.fields);
        case TVector(elem) =>
          var p := Size4(|v.elems|);
          SplitOne(hk.Contents(), p, ElemOps(funcs, elem, FormElems(g, d, elem, v.elems)), hk.keySize);
          ghost var b := hk.Contents();
          hk.Put(p);
          ok := WriteElems(hk, g, d, elem, v.elems);
          WrittenOne(b, p, ElemOps(funcs, elem, FormElems(g, d, elem, v.elems)));
        case TList(types) =>
          ok := WriteSized(hk, g, d, types, v.vals);
        case TTable(index, result) =>
          var p := Size4(|v.entries|);
          SplitOne(hk.Contents(), p, EntryOps(funcs, index, result, FormTable(g, d, t, v.entries)), hk.keySize);
          ghost var b := hk.Contents();
          hk.Put(p);
          ok := WriteEntries(hk, g, d, t, v.entries);
          WrittenOne(b, p, EntryOps(funcs, index, result, FormTable(g, d, t, v.entries)));
        case _ =>
          WriteScalar(hk, t, v);
          ok := true;
      }
    }

    /** Write a value or, if it may be missing, a flag and perhaps a value. */
    method SingleValHash(hk: HashKey, g: Pass, d: nat, f: Field, o: Maybe) returns (ok: bool)
      requires Valid() && hk.Valid() && hk.key != null && ElemHas(f.t, o)
      requires |Written(hk.Contents(), OneField(funcs, f, FormField(g, d, f, o)))| <= hk.keySize
      modifies this`funcs, this`ids, hk`writeSize, hk.key
      ensures Valid() && hk.Valid() && old(funcs) <= funcs
      ensures ok <==> if o.Just? then GetsField(g, d, f, o) else f.optional
      ensures ok ==> CoversMaybe(funcs, FormField(g, d, f, o))
      ensures ok ==> hk.Contents() == Written(old(hk.Contents()), OneField(funcs, f, FormField(g, d, f, o)))
      decreases f, 0
    {
      hide Written, After, Ops, HasType, Form, Covers, Flag, CompositeHash.Valid, HashKey.Valid, Gets;
      ghost var b := hk.Contents();
      ghost var ops := MaybeOps(funcs, f.t, FormMaybe(g, d, f.t, o));
      if f.optional {
        SplitOne(b, Flag(o.Just?), ops, hk.keySize);
        hk.Put(Flag(o.Just?));
      } else {
        assert [] + ops == ops;
      }
      if o.Absent? {
        NothingWritten(hk.Contents());
        return f.optional;
      }
      ok := WriteVal(hk, g, d, f.t, o.v);
      ops := MaybeOps(funcs, f.t, FormMaybe(g, d, f.t, o));
      if f.optional {
        WrittenOne(b, Flag(o.Just?), ops);
      } else {
        assert [] + ops == ops;
      }
    }

    method WriteFields(hk: HashKey, g: Pass, d: nat, fields: seq<Field>, os: seq<Maybe>) returns (ok: bool)
      requires Valid() && hk.Valid() && hk.key != null && FieldsHave(fields, os)
      requires |Written(hk.Contents(), FieldOps(funcs, fields, FormFields(g, d, fields, os)))| <= hk.keySize
      modifies this`funcs, this`ids, hk`writeSize, hk.key
      ensures Valid() && hk.Valid() && old(funcs) <= funcs && (ok <==> GetsFields(g, d, fields, os))
      ensures ok ==>
                forall i :: 0 <= i < |FormFields(g, d, fields, os)| ==>
                    CoversMaybe(funcs, FormFields(g, d, fields, os)[i])
      ensures ok ==> hk.Contents() == Written(old(hk.Contents()), FieldOps(funcs, fields, FormFields(g, d, fields, os)))
      decreases fields, 0
    {
      hide Written, FieldOps, OneField, ElemHas, FormField, GetsField, CoversMaybe, CompositeHash.Valid, HashKey.Valid;
      ghost var cs, b, f0 := FormFields(g, d, fields, os), hk.Contents(), funcs;
      NoFieldOps(funcs, b);
      assert fields[..0] == [] && cs[..0] == [];
      for i := 0 to |os|
        invariant Valid() && hk.Valid() && f0 <= funcs
        invariant forall k :: 0 <= k < i ==> CoversMaybe(funcs, cs[k])
        invariant forall k :: 0 <= k < i ==> GetsField(g, d, fields[k], os[k])
        invariant hk.Contents() == Written(b, FieldOps(funcs, fields[..i], cs[..i]))
      {
        ghost var f := funcs;
        FieldsStep(f0, funcs, fields, cs, i, b, hk.keySize);
        AbsentGets(g, d, fields[i], os[i]);
        assert cs[i] == FormField(g, d, fields[i], os[i]);
        ok := SingleValHash(hk, g, d, fields[i], os[i]);
        if !ok {
          return false;
        }
        forall k | 0 <= k < i ensures CoversMaybe(funcs, cs[k]) {
          CoversMoreMaybe(f, funcs, cs[k]);
        }
        FieldsGrown(f, funcs, fields[..i], cs[..i]);
        FieldsStep(f0, funcs, fields, cs, i, b, hk.keySize);
      }
      assert fields[..|os|] == fields && cs[..|os|] == cs;
      ok := true;
    }

    method WriteElems(hk: HashKey, g: Pass, d: nat, elem: Type, os: seq<Maybe>) returns (ok: bool)
      requires Valid() && hk.Valid() && hk.key != null && forall i :: 0 <= i < |os| ==> ElemHas(elem, os[i])
      requires |Written(hk.Contents(), ElemOps(funcs, elem, FormElems(g, d, elem, os)))| <= hk.keySize
      modifies this`funcs, this`ids, hk`writeSize, hk.key
      ensures Valid() && hk.Valid() && old(funcs) <= funcs
      ensures ok <==> forall i :: 0 <= i < |os| ==> GetsMaybe(g, d, elem, os[i])
      ensures ok ==> forall i :: 0 <= i < |FormElems(g, d, elem, os)| ==>
              CoversMaybe(funcs, FormElems(g, d, elem, os)[i])
      ensures ok ==> hk.Contents() == Written(old(hk.Contents()), ElemOps(funcs, elem, FormElems(g, d, elem, os)))
      decreases elem, 5
    {
      hide Written, ElemOps, OneElem, ElemHas, FormMaybe, GetsMaybe, CoversMaybe, CompositeHash.Valid, HashKey.Valid;
      ghost var cs, b, f0 := FormElems(g, d, elem, os), hk.Contents(), funcs;
      NoElemOps(funcs, elem, b);
      assert cs[..0] == [];
      for i := 0 to |os|
        invariant Valid() && hk.Valid() && f0 <= funcs
        invariant forall k :: 0 <= k < i ==> CoversMaybe(funcs, cs[k])
        invariant forall k :: 0 <= k < i ==> GetsMaybe(g, d, elem, os[k])
        invariant hk.Contents() == Written(b, ElemOps(funcs, elem, cs[..i]))
      {
        ghost var f := funcs;
        ElemsStep(f0, funcs, elem, cs, i, b, hk.keySize);
        assert cs[i] == FormMaybe(g, d, elem, os[i]);
        ok := WriteElem(hk, g, d, elem, i, os[i]);
        if !ok {
          return false;
        }
        forall k | 0 <= k < i ensures CoversMaybe(funcs, cs[k]) {
          CoversMoreMaybe(f, funcs, cs[k]);
        }
        ElemsGrown(f, funcs, elem, cs[..i]);
        ElemsStep(f0, funcs, elem, cs, i, b, hk.keySize);
      }
      assert cs[..|os|] == cs;
      ok := true;
    }

    /** An index, a flag saying whether there is a value, and the value. */
    method WriteElem(hk: HashKey, g: Pass, d: nat, elem: Type, i: nat, o: Maybe) returns (ok: bool)
      requires Valid() && hk.Valid() && hk.key != null && ElemHas(elem, o)
      requires |Written(hk.Contents(), OneElem(funcs, elem, i, FormMaybe(g, d, elem, o)))| <= hk.keySize
      modifies this`funcs, this`ids, hk`writeSize, hk.key
      ensures Valid() && hk.Valid() && old(funcs) <= funcs && (ok <==> GetsMaybe(g, d, elem, o))
      ensures ok ==> CoversMaybe(funcs, FormMaybe(g, d, elem, o))
      ensures ok ==> hk.Contents() == Written(old(hk.Contents()), OneElem(funcs, elem, i, FormMaybe(g, d, elem, o)))
      decreases elem, 4
    {
      hide Written, After, Ops, HasType, Form, Covers, Present, Size4, CompositeHash.Valid, HashKey.Valid, Gets;
      ghost var b, p, q := hk.Contents(), Size4(i), Present(o.Just?);
      ghost var ops := MaybeOps(funcs, elem, FormMaybe(g, d, elem, o));
      SplitOne(b, p, [q] + ops, hk.keySize);
      SplitOne(After(b, p), q, ops, hk.keySize);
      hk.Put(Size4(i));
      hk.Put(Present(o.Just?));
      NothingWritten(hk.Contents());
      ok := true;
      if o.Just? {
        ok := WriteVal(hk, g, d, elem, o.v);
      }
      ops := MaybeOps(funcs, elem, FormMaybe(g, d, elem, o));
      WrittenOne(b, p, [q] + ops);
      WrittenOne(After(b, p), q, ops);
    }

    method WriteList(hk: HashKey, g: Pass, d: nat, types: seq<Type>, vs: seq<Val>) returns (ok: bool)
      requires Valid() && hk.Valid() && hk.key != null && ListHas(types, vs)
      requires |Written(hk.Contents(), ListOps(funcs, types, FormList(g, d, types, vs)))| <= hk.keySize
      modifies this`funcs, this`ids, hk`writeSize, hk.key
      ensures Valid() && hk.Valid() && old(funcs) <= funcs && (ok <==> GetsList(g, d, types, vs))
      ensures ok ==> CoversList(funcs, FormList(g, d, types, vs))
      ensures ok ==> hk.Contents() == Written(old(hk.Contents()), ListOps(funcs, types, FormList(g, d, types, vs)))
      decreases types, 0
    {
      hide Written, ListOps, Ops, HasType, Form, Covers, Gets, CompositeHash.Valid, HashKey.Valid;
      ghost var cs, b, f0 := FormList(g, d, types, vs), hk.Contents(), funcs;
      NoListOps(funcs, b);
      assert types[..0] == [] && cs[..0] == [];
      for i := 0 to |vs|
        invariant Valid() && hk.Valid() && f0 <= funcs
        invariant CoversList(funcs, cs[..i])
        invariant forall k :: 0 <= k < i ==> Gets(g, d, types[k], vs[k])
        invariant hk.Contents() == Written(b, ListOps(funcs, types[..i], cs[..i]))
      {
        ghost var f := funcs;
        ListStep(f0, funcs, types, cs, i, b, hk.keySize);
        assert cs[i] == Form(g, d, types[i], vs[i]);
        ok := WriteVal(hk, g, d, types[i], vs[i]);
        if !ok {
          return false;
        }
        CoversMoreList(f, funcs, cs[..i]);
        ListGrown(f, funcs, types[..i], cs[..i]);
        ListStep(f0, funcs, types, cs, i, b, hk.keySize);
        assert cs[..i + 1] == cs[..i] + [cs[i]];
      }
      assert types[..|vs|] == types && cs[..|vs|] == cs;
      ok := true;
    }

    method WriteSized(hk: HashKey, g: Pass, d: nat, types: seq<Type>, vs: seq<Val>) returns (ok: bool)
      requires Valid() && hk.Valid() && hk.key != null && ListHas(types, vs)
      requires |Written(hk.Contents(), [Size4(|vs|)] + ListOps(funcs, types, FormList(g, d, types, vs)))| <= hk.keySize
      modifies this`funcs, this`ids, hk`writeSize, hk.key
      ensures Valid() && hk.Valid() && old(funcs) <= funcs && (ok <==> GetsList(g, d, types, vs))
      ensures ok ==> CoversList(funcs, FormList(g, d, types, vs))
      ensures ok ==>
                hk.Contents() ==
                    Written(old(hk.Contents()), [Size4(|vs|)] + ListOps(funcs, types, FormList(g, d, types, vs)))
      decreases types, 1
    {
      hide Written, After, ListOps, FormList, CoversList, ListHas, Size4, GetsList, CompositeHash.Valid, HashKey.Valid;
      ghost var b := hk.Contents();
      SplitOne(b, Size4(|vs|), ListOps(funcs, types, FormList(g, d, types, vs)), hk.keySize);
      hk.Put(Size4(|vs|));
      ok := WriteList(hk, g, d, types, vs);
      WrittenOne(b, Size4(|vs|), ListOps(funcs, types, FormList(g, d, types, vs)));
    }

    method WriteEntries(hk: HashKey, g: Pass, d: nat, t: Type, es: seq<Entry>) returns (ok: bool)
      requires Valid() && hk.Valid() && hk.key != null && t.TTable? && TabOk(Tab(t.index, t.result, es))
      requires |Written(hk.Contents(), EntryOps(funcs, t.index, t.result, FormTable(g, d, t, es)))| <= hk.keySize
      modifies this`funcs, this`ids, hk`writeSize, hk.key
      ensures Valid() && hk.Valid() && old(funcs) <= funcs && (ok <==> GetsEntries(g, d, t, es))
      ensures ok ==> forall i :: 0 <= i < |FormTable(g, d, t, es)| ==> CoversEntry(funcs, FormTable(g, d, t, es)[i])
      ensures ok ==>
              hk.Contents() == Written(old(hk.Contents()), EntryOps(funcs, t.index, t.result, FormTable(g, d, t, es)))
      decreases t, 1
    {
      hide Written, EntryOps, OneEntry, EntryHas, ListHas, Fetched, Renewed, Sorted, CoversEntry, GetsEntry;
      hide CompositeHash.Valid, HashKey.Valid;
      var at := OrderedHashkeys(g, d, g(d), t, es);
      ghost var cs, b, f0 := FormTable(g, d, t, es), hk.Contents(), funcs;
      NoEntryOps(funcs, t.index, t.result, b);
      assert cs[..0] == [];
      for i := 0 to |at|
        invariant Valid() && hk.Valid() && f0 <= funcs
        invariant forall k :: 0 <= k < i ==> CoversEntry(funcs, cs[k])
        invariant forall k :: 0 <= k < i ==> GetsEntry(g, d, t, es, at[k])
        invariant hk.Contents() == Written(b, EntryOps(funcs, t.index, t.result, cs[..i]))
      {
        ghost var f := funcs;
        EntriesStep(f0, funcs, t.index, t.result, cs, i, b, hk.keySize);
        assert cs[i] == Renewed(g, d, t, Fetched(g, d, t, es, at[i]));
        ok := WriteEntry(hk, g, d, t, es, at[i]);
        if !ok {
          return false;
        }
        forall k | 0 <= k < i ensures CoversEntry(funcs, cs[k]) {
          CoversMoreEntry(f, funcs, cs[k]);
        }
        EntriesGrown(f, funcs, t.index, t.result, cs[..i]);
        EntriesStep(f0, funcs, t.index, t.result, cs, i, b, hk.keySize);
      }
      assert cs[..|at|] == cs;
      forall j | 0 <= j < |es| ensures GetsEntry(g, d, t, es, j) {
        assert j in at;
      }
      ok := true;
    }

    /** An entry: its index, made anew from the stored key, as a list, then unless the table is a set the
        yield, looked up by a key made for that. */
    method WriteEntry(hk: HashKey, g: Pass, d: nat, t: Type, es: seq<Entry>, i: nat) returns (ok: bool)
      requires Valid() && hk.Valid() && hk.key != null && t.TTable? && TabOk(Tab(t.index, t.result, es)) && i < |es|
      requires |Written(hk.Contents(),
               OneEntry(funcs, t.index, t.result, Renewed(g, d, t, Fetched(g, d, t, es, i))))| <= hk.keySize
      modifies this`funcs, this`ids, hk`writeSize, hk.key
      ensures Valid() && hk.Valid() && old(funcs) <= funcs && (ok <==> GetsEntry(g, d, t, es, i))
      ensures ok ==> CoversEntry(funcs, Renewed(g, d, t, Fetched(g, d, t, es, i)))
      ensures ok ==>
                hk.Contents() == Written(old(hk.Contents()),
                    OneEntry(funcs, t.index, t.result, Renewed(g, d, t, Fetched(g, d, t, es, i))))
      decreases t, 0
    {
      hide Written, After, ListOps, MaybeOps, CanonList, FormList, FormMaybe, CoversList, ListHas, Size4, HasType, Hit;
      hide GetsList, GetsMaybe, CompositeHash.Valid, HashKey.Valid;
      assert EntryHas(t.index, t.result, es[i]);
      var key := CanonList(g(d), t.index, es[i].index);
      ghost var b, c, f0 := hk.Contents(), Renewed(g, d, t, Fetched(g, d, t, es, i)), funcs;
      EntrySplits(funcs, t.index, t.result, c, b, hk.keySize);
      ok := WriteSized(hk, g, d + 1, t.index, key);
      if !ok {
        return false;
      }
      ghost var f1 := funcs;
      EntryGrows(f0, f1, t.index, t.result, c, b, hk.keySize);
      if t.result.YieldOf? {
        var hit := Hit(g, d, t, es, i);
        if hit.None? {
          return false;
        }
        assert EntryHas(t.index, t.result, es[hit.value]);
        ok := WriteYield(hk, g, d, t.result.t, es[hit.value].result);
        if !ok {
          return false;
        }
        CoversMoreList(f1, funcs, c.index);
        EntryStays(f1, funcs, t.index, t.result, c, b);
      } else {
        NothingWritten(hk.Contents());
      }
    }

    method WriteYield(hk: HashKey, g: Pass, d: nat, t: Type, o: Maybe) returns (ok: bool)
      requires Valid() && hk.Valid() && hk.key != null && ElemHas(t, o) && o.Just?
      requires |Written(hk.Contents(), MaybeOps(funcs, t, FormMaybe(g, d, t, o)))| <= hk.keySize
      modifies this`funcs, this`ids, hk`writeSize, hk.key
      ensures Valid() && hk.Valid() && old(funcs) <= funcs && (ok <==> GetsMaybe(g, d, t, o))
      ensures ok ==> CoversMaybe(funcs, FormMaybe(g, d, t, o))
      ensures ok ==> hk.Contents() == Written(old(hk.Contents()), MaybeOps(funcs, t, FormMaybe(g, d, t, o)))
      decreases t, 3
    {
      hide Written, Ops, HasType, Form, Covers, Gets, CompositeHash.Valid, HashKey.Valid;
      ok := WriteVal(hk, g, d, t, o.v);
    }

    // ---------------------------------------------------------------- keys

    /** The key of these values, written by pass `g` in the room reserved by `r`. */
    ghost predicate KeyOf(hk: HashKey, r: Pass, g: Pass, vs: seq<Val>)
      requires hk.Valid() && hk.key != null && ListHas(types, vs)
      reads this, hk, hk.key
    {
      && hk.Contents() == KeyBytes(funcs, types, FormList(g, 0, types, vs))
      && hk.keySize == Room(types, FormList(r, 0, types, vs))
      && CoversList(funcs, FormList(g, 0, types, vs))
    }

    /** The key of a value or a list of values, null if it is of the wrong shape. A bare value, or one in
        a list, is the index of a table with one index type; otherwise the index is a list. Making the key
        fails where the source would go on with a yield it did not find, or write past what it reserved. */
    method MakeHashKey(arg: Arg, r: Pass, g: Pass) returns (hk: HashKey?, failed: bool)
      requires Valid() && r(0) == g(0)
      requires arg.Bare? && |types| == 1 ==> ListHas(types, [arg.v])
      requires arg.Listed? && (|types| == 1 ==> |arg.vs| == 1) ==> ListHas(types, arg.vs)
      modifies this`funcs, this`ids
      ensures Valid() && old(funcs) <= funcs
      ensures hk == null && !failed <==>
              (arg.Bare? && |types| != 1) || (arg.Listed? && |types| == 1 && |arg.vs| != 1)
      ensures hk == null || !failed
      ensures hk != null ==> fresh(hk) && hk.Valid() && hk.key != null && fresh(hk.key)
      ensures arg.Bare? && |types| == 1 ==>
                && (hk != null <==> Makes(r, g, types, [arg.v]))
                && (hk != null ==> KeyOf(hk, r, g, [arg.v]))
      ensures arg.Listed? && (|types| == 1 ==> |arg.vs| == 1) ==>
                && (hk != null <==> Makes(r, g, types, arg.vs))
                && (hk != null ==> KeyOf(hk, r, g, arg.vs))
    {
      hide FormList, CoversList, KeyBytes, Room, ListHas, CompositeHash.Valid, Makes;
      var vs;
      match arg {
        case Bare(v) =>
          if |types| != 1 {
            return null, false;
          }
          vs := [v];
        case Listed(us) =>
          if |types| == 1 && |us| != 1 {
            return null, false;
          }
          vs := us;
      }
      var ok;
      hk, ok := ListKey(vs, r, g);
      failed := !ok;
      if failed {
        hk := null;
      }
    }

    /** The key of a list of values, made in two passes: `r` reserves and `g` writes. That the writes fit,
        which each of them checks, is decided before the first. */
    method ListKey(vs: seq<Val>, r: Pass, g: Pass) returns (hk: HashKey, ok: bool)
      requires Valid() && ListHas(types, vs) && r(0) == g(0)
      modifies this`funcs, this`ids
      ensures Valid() && old(funcs) <= funcs && fresh(hk) && (ok <==> Makes(r, g, types, vs))
      ensures ok ==> hk.Valid() && hk.key != null && fresh(hk.key) && CoversList(funcs, FormList(g, 0, types, vs))
      ensures ok ==> hk.Contents() == KeyBytes(funcs, types, FormList(g, 0, types, vs))
      ensures ok ==> hk.keySize == Room(types, FormList(r, 0, types, vs))
    {
      hk := new HashKey();
      ghost var any := g(0).inner(types);
      hide ListOps, Written, Reserved, CompositeHash.Valid, HashKey.Valid, ListHas, FormList, CoversList, GetsList;
      hide KeyBytes, Room;
      if |types| == 1 {
        ok := SingletonKey(hk, vs, r, g);
        return;
      }
      ok := ReserveList(r, 0, hk, types, vs);
      if !ok {
        return;
      }
      SeveralTypes([], types, FormList(r, 0, types, vs));
      SeveralTypes(funcs, types, FormList(g, 0, types, vs));
      LengthStays(funcs, any, types, FormList(g, 0, types, vs));
      if |KeyBytes(funcs, types, FormList(g, 0, types, vs))| > hk.keySize {
        return hk, false;
      }
      hk.Allocate();
      assert hk.Contents() == [] by {
        assert |hk.Contents()| == 0;
      }
      ok := WriteList(hk, g, 0, types, vs);
      SeveralTypes(funcs, types, FormList(g, 0, types, vs));
    }

    /** A key for a single value: fixed-size scalars are set, a string is written bare. */
    method SingletonKey(hk: HashKey, vs: seq<Val>, r: Pass, g: Pass) returns (ok: bool)
      requires Valid() && hk.Valid() && hk.key == null && hk.keySize == 0 && |types| == 1 && ListHas(types, vs) &&
               r(0) == g(0)
      modifies this`funcs, this`ids, hk
      ensures Valid() && old(funcs) <= funcs && (ok <==> Makes(r, g, types, vs))
      ensures ok ==> hk.Valid() && hk.key != null && fresh(hk.key) && CoversList(funcs, FormList(g, 0, types, vs))
      ensures ok ==> hk.Contents() == KeyBytes(funcs, types, FormList(g, 0, types, vs))
      ensures ok ==> hk.keySize == Room(types, FormList(r, 0, types, vs))
    {
      hide CompositeHash.Valid, HashKey.Valid, ListHas, FormList, CoversList, GetsList, KeyBytes, Room, Covers, Form;
      hide Gets, Ops, Written, Reserved;
      OneValue(r, types, vs);
      OneValue(g, types, vs);
      var t, v := types[0], vs[0];
      ghost var f0, any := funcs, g(0).inner(types);
      OneType([], types, FormList(r, 0, types, vs));
      OneType(any, types, FormList(g, 0, types, vs));
      if Scalar(t) {
        ScalarForms(r, g, t, v);
        SingletonHash(hk, t, v);
        OneType(funcs, types, FormList(g, 0, types, vs));
        ScalarFits(any, types, FormList(g, 0, types, vs));
        return true;
      }
      ok := ReserveVal(r, 0, hk, t, v);
      if !ok {
        return;
      }
      OneType(funcs, types, FormList(g, 0, types, vs));
      LengthStays(funcs, any, types, FormList(g, 0, types, vs));
      if |KeyBytes(funcs, types, FormList(g, 0, types, vs))| > hk.keySize {
        return false;
      }
      hk.Allocate();
      assert hk.Contents() == [] by {
        assert |hk.Contents()| == 0;
      }
      ok := WriteVal(hk, g, 0, t, v);
      OneType(funcs, types, FormList(g, 0, types, vs));
    }

    method SingletonHash(hk: HashKey, t: Type, v: Val)
      requires Valid() && hk.Valid() && hk.key == null && hk.keySize == 0 && HasType(t, v) && Scalar(t)
      modifies this`funcs, this`ids, hk
      ensures Valid() && old(funcs) <= funcs && Covers(funcs, v)
      ensures hk.Valid() && hk.key != null && fresh(hk.key)
      ensures t.TString? ==> hk.Contents() == v.text && hk.keySize == hk.writeSize
      ensures !t.TString? ==> hk.Contents() == Written([], Ops(funcs, t, v))
      ensures !t.TString? ==> hk.keySize == Reserved(0, Ops([], t, v))
    {
      hide Written, Reserved, Word, IdOf;
      match t {
        case TInt =>
          SetWritten(Put(Word(Unsigned(v.i), 8), 8, 8, 8));
          hk.Set(Word(Unsigned(v.i), 8));
        case TCount =>
          SetWritten(Put(Word(v.u, 8), 8, 8, 8));
          hk.Set(Word(v.u, 8));
        case TDouble =>
          SetWritten(Put(v.word, 8, 8, 8));
          hk.Set(v.word);
        case TFunc =>
          var id := FuncId(v.f);
          SetWritten(Size4(id));
          SetWritten(Size4(IdOf([], v.f)));
          hk.Set(Word(id, 4));
        case TString =>
          hk.Reserve(|v.text|, 0);
          hk.Allocate();
          hk.Write(v.text, 0);
          assert hk.Contents() == v.text;
        case TAddr =>
          AllocateAndWrite(hk, t, v);
        case TSubnet =>
          AllocateAndWrite(hk, t, v);
      }
    }

    method AllocateAndWrite(hk: HashKey, t: Type, v: Val)
      requires Valid() && hk.Valid() && hk.key == null && hk.keySize == 0 && HasType(t, v) && Scalar(t)
      modifies this`funcs, this`ids, hk
      ensures Valid() && old(funcs) <= funcs && Covers(funcs, v)
      ensures hk.Valid() && hk.key != null && fresh(hk.key)
      ensures hk.Contents() == Written([], Ops(funcs, t, v)) && hk.keySize == Reserved(0, Ops([], t, v))
    {
      hide Written, Reserved, Ops, HasType, Covers, CompositeHash.Valid;
      ReserveScalar(hk, t, v);
      hk.Allocate();
      ValFits([], funcs, t, v);
      assert hk.Contents() == [];
      WriteScalar(hk, t, v);
    }

    /** The values a key was made from. */
    method RecoverVals(hk: HashKey) returns (r: Parsed<seq<Val>>)
      requires Valid() && hk.Valid() && hk.key != null && hk.isAllocated
      modifies hk`readSize
      ensures hk.Valid() && r == DecodeKey(funcs, types, hk.key[..])
    {
      hk.readSize := 0;
      if |types| == 1 && types[0].TString? {
        return Ok([Str(hk.key[..])], hk.keySize);
      }
      r := CompRecover.RecoverList(funcs, hk, types);
    }

    /** Making a key, copying it into a dictionary, and recovering the copy gives back what was written,
        also after other keys have been made. That is an equal index, with the stored yields. It succeeds
        if the tables inside indices keep their order and no stored key of a table with a yield has
        unwritten bytes, whatever those of the key itself; `CompMade.MadeExactly` and `YieldsFound` say when
        it can fail. */
    method RecreateIndex(vs: seq<Val>, others: seq<seq<Val>>, r: Pass, g: Pass) returns (us: Option<seq<Val>>)
      requires Valid() && ListHas(types, vs) && (forall i :: 0 <= i < |others| ==> ListHas(types, others[i])) &&
               r(0) == g(0)
      modifies this`funcs, this`ids
      ensures Valid() && (us.Some? <==> Makes(r, g, types, vs))
      ensures us.Some? ==> us.value == FormList(g, 0, types, vs)
      ensures us.Some? && Lined(g) && Usable(g(0), types, vs) ==> AlikeList(vs, us.value)
      ensures (Lined(r) && Lined(g) && Usable(g(0), types, vs) && AllList(Settles(g(0)), types, vs) &&
               AllList(YieldFirms(g(0)), types, vs)) ==> us.Some?
    {
      hide CompositeHash.Valid, ListHas, FormList, CoversList, KeyBytes, DecodeKey, Room, AlikeList, Makes, Usable;
      hide Lined, AllList, Settles, YieldFirms;
      if Lined(r) && Lined(g) && Usable(g(0), types, vs) && AllList(Settles(g(0)), types, vs) &&
         AllList(YieldFirms(g(0)), types, vs) {
        SettledMakes(r, g, types, vs);
      }
      var made, ok := ListKey(vs, r, g);
      if !ok {
        return None;
      }
      var hk := made.Copy();
      FuncsFit();
      ghost var cs, f, bytes := FormList(g, 0, types, vs), funcs, hk.key[..];
      ghost var tail := made.key[made.writeSize..];
      assert bytes == KeyBytes(f, types, cs) + tail;
      for i := 0 to |others|
        modifies this`funcs, this`ids
        invariant Valid() && f <= funcs && hk.Valid() && hk.key[..] == bytes
      {
        var other, made := ListKey(others[i], r, g);
      }
      if |types| == 1 && types[0].TString? {
        StringFills(r, g, f, types, vs);
      }
      KeyRecovers(f, funcs, types, cs, tail);
      var got := RecoverVals(hk);
      us := Some(got.v);
      if Lined(g) && Usable(g(0), types, vs) {
        UsableIs(g(0), types, vs);
        FormIsAlikeList(g, 0, types, vs);
      }
    }
  }

  lemma StringFills(r: Pass, g: Pass, funcs: seq<nat>, types: seq<Type>, vs: seq<Val>)
    requires ListHas(types, vs) && |types| == 1 && types[0].TString?
    ensures |KeyBytes(funcs, types, FormList(g, 0, types, vs))| == Room(types, FormList(r, 0, types, vs))
  {
    hide KeyBytes, Room, FormList, ListHas;
    OneValue(g, types, vs);
    OneValue(r, types, vs);
    ScalarForms(r, g, types[0], vs[0]);
    OneType(funcs, types, FormList(g, 0, types, vs));
  }

  lemma SetWritten(p: Put)
    requires p.room == |p.data|
    ensures Written([], [p]) == p.data && Reserved(0, [p]) == |p.data|
  {
    OneWritten([], p);
    OneReserved(0, p, []);
  }

  lemma OneValue(g: Pass, types: seq<Type>, vs: seq<Val>)
    requires ListHas(types, vs) && |types| == 1
    ensures HasType(types[0], vs[0]) && FormList(g, 0, types, vs) == [Form(g, 0, types[0], vs[0])]
    ensures GetsList(g, 0, types, vs) <==> Gets(g, 0, types[0], vs[0])
  {
    hide Form, Gets;
  }

  lemma OneType(funcs: seq<nat>, types: seq<Type>, cs: seq<Val>)
    requires ListHas(types, cs) && |types| == 1
    ensures HasType(types[0], cs[0]) && (CoversList(funcs, cs) <==> Covers(funcs, cs[0]))
    ensures types[0].TString? ==> KeyBytes(funcs, types, cs) == cs[0].text && Room(types, cs) == |cs[0].text|
    ensures !types[0].TString? ==> KeyBytes(funcs, types, cs) == Written([], Ops(funcs, types[0], cs[0]))
    ensures !types[0].TString? ==> Room(types, cs) == Reserved(0, Ops([], types[0], cs[0]))
  {
    hide Written, Reserved, Ops, Covers;
    assert types[..0] == [] && cs[..0] == [];
    assert ListOps(funcs, types, cs) == ListOps(funcs, [], []) + Ops(funcs, types[0], cs[0]);
    assert ListOps([], types, cs) == ListOps([], [], []) + Ops([], types[0], cs[0]);
    assert [] + Ops(funcs, types[0], cs[0]) == Ops(funcs, types[0], cs[0]);
    assert [] + Ops([], types[0], cs[0]) == Ops([], types[0], cs[0]);
  }

  lemma SeveralTypes(funcs: seq<nat>, types: seq<Type>, cs: seq<Val>)
    requires ListHas(types, cs) && |types| != 1
    ensures KeyBytes(funcs, types, cs) == Written([], ListOps(funcs, types, cs))
    ensures Room(types, cs) == Reserved(0, ListOps([], types, cs))
  {
    hide Written, Reserved, ListOps;
  }

  /** How much is written does not depend on the function table. */
  lemma LengthStays(f: seq<nat>, g: seq<nat>, types: seq<Type>, vs: seq<Val>)
    requires ListHas(types, vs)
    ensures |KeyBytes(f, types, vs)| == |KeyBytes(g, types, vs)|
  {
    RoomSuffices(f, types, vs);
    RoomSuffices(g, types, vs);
    SlackIsGap(f, types, vs);
    SlackIsGap(g, types, vs);
  }

  lemma ScalarForms(r: Pass, g: Pass, t: Type, v: Val)
    requires HasType(t, v) && Scalar(t)
    ensures Form(g, 0, t, v) == v && Form(r, 0, t, v) == v && Gets(g, 0, t, v) && Gets(r, 0, t, v)
  {
  }

  lemma ScalarFits(funcs: seq<nat>, types: seq<Type>, vs: seq<Val>)
    requires ListHas(types, vs)
    ensures |KeyBytes(funcs, types, vs)| <= Room(types, vs)
  {
    hide KeyBytes, Room, Slack, ListHas;
    RoomSuffices(funcs, types, vs);
  }

  /** The two parts of an entry's script. */
  lemma EntrySplits(funcs: seq<nat>, index: seq<Type>, result: Yield, e: Entry, b: seq<Byte>, room: nat)
    requires EntryHas(index, result, e) && |Written(b, OneEntry(funcs, index, result, e))| <= room
    ensures var keys := [Size4(|e.index|)] + ListOps(funcs, index, e.index);
            && |Written(b, keys)| <= room
            && (if result.YieldOf?
                then Written(b, OneEntry(funcs, index, result, e)) ==
                    Written(Written(b, keys), MaybeOps(funcs, result.t, e.result))
                else OneEntry(funcs, index, result, e) == keys)
  {
    hide ListOps, MaybeOps, ListHas, HasType, Size4;
    var keys := [Size4(|e.index|)] + ListOps(funcs, index, e.index);
    var ops := if result.YieldOf? then MaybeOps(funcs, result.t, e.result) else [];
    WrittenJoin(b, keys, ops);
    assert keys + [] == keys;
  }

  /** The script fits as well with a larger function table. */
  lemma EntryGrows(f: seq<nat>, g: seq<nat>, index: seq<Type>, result: Yield, e: Entry, b: seq<Byte>, room: nat)
    requires EntryHas(index, result, e) && |Written(b, OneEntry(f, index, result, e))| <= room
    ensures var keys := [Size4(|e.index|)] + ListOps(g, index, e.index);
            && |Written(b, keys)| <= room
            && (if result.YieldOf?
                then && Written(b, OneEntry(g, index, result, e)) ==
                    Written(Written(b, keys), MaybeOps(g, result.t, e.result))
                     && |Written(Written(b, keys), MaybeOps(g, result.t, e.result))| <= room
                else OneEntry(g, index, result, e) == keys)
  {
    hide OneEntry, EntryHas;
    EntryRelated(f, g, index, result, e, false);
    RoomStays(b, OneEntry(f, index, result, e), OneEntry(g, index, result, e), room);
    EntrySplits(g, index, result, e, b, room);
  }

  lemma EntryStays(f: seq<nat>, g: seq<nat>, index: seq<Type>, result: Yield, e: Entry, b: seq<Byte>)
    requires EntryHas(index, result, e) && f <= g && CoversList(f, e.index) && result.YieldOf?
    ensures var keys := [Size4(|e.index|)] + ListOps(f, index, e.index);
            Written(b, OneEntry(g, index, result, e)) == Written(Written(b, keys), MaybeOps(g, result.t, e.result))
  {
    hide OneEntry, EntryHas, ListOps, CoversList;
    EntryIndex(index, result, e);
    SizedRelated(f, g, index, e.index, true);
    EntrySplits(g, index, result, e, b, |Written(b, OneEntry(g, index, result, e))|);
  }

  lemma EntryIndex(index: seq<Type>, result: Yield, e: Entry)
    requires EntryHas(index, result, e)
    ensures ListHas(index, e.index)
  {
  }

  lemma OneWritten(b: seq<Byte>, p: Put)
    ensures Written(b, [p]) == After(b, p)
  {
    WrittenOne(b, p, []);
  }
}
