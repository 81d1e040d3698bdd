/** Recovering values: the reads that mirror the writes. */
module CompRecover {
  import opened Octet
  import opened HashBytes
  import opened CompVals
  import opened HashKeys

  method RecoverScalar(funcs: seq<nat>, hk: HashKey, t: Type) returns (r: Parsed<Val>)
    requires hk.Valid() && hk.key != null && hk.isAllocated && !t.TRecord? && !t.TVector? && !t.TList? && !t.TTable?
    modifies hk`readSize
    ensures hk.Valid() && r == Decode(funcs, t, hk.key[..], old(hk.readSize))
    ensures r.Ok? ==> hk.readSize == r.pos
  {
    match t {
      case TInt =>
        var x := hk.Read(8, 8);
        r := if x.Fail? then Fail else Ok(Int(Signed(Number(x.v))), x.pos);
      case TCount =>
        var x := hk.Read(8, 8);
        r := if x.Fail? then Fail else Ok(Count(Number(x.v)), x.pos);
      case TDouble =>
        var x := hk.Read(8, 8);
        r := if x.Fail? then Fail else Ok(Double(x.v), x.pos);
      case TAddr =>
        var x := hk.Read(16, 4);
        r := if x.Fail? then Fail else Ok(Addr(x.v), x.pos);
      case TSubnet =>
        var x := hk.Read(16, 4);
        if x.Fail? {
          return Fail;
        }
        var n := hk.ReadSize();
        r := if n.Fail? then Fail else Ok(Subnet(x.v, n.v), n.pos);
      case TString =>
        var n := hk.ReadSize();
        if n.Fail? {
          return Fail;
        }
        var x := hk.Read(n.v, 0);
        r := if x.Fail? then Fail else Ok(Str(x.v), x.pos);
      case TFunc =>
        var id := hk.ReadSize();
        r := if id.Fail? || id.v >= |funcs| then Fail else Ok(Func(funcs[id.v]), id.pos);
    }
  }

  /** Recover a value that is there. */
  method RecoverVal(funcs: seq<nat>, hk: HashKey, t: Type) returns (r: Parsed<Val>)
    requires hk.Valid() && hk.key != null && hk.isAllocated
    modifies hk`readSize
    ensures hk.Valid() && r == Decode(funcs, t, hk.key[..], old(hk.readSize))
    ensures r.Ok? ==> hk.readSize == r.pos
    decreases t, 2, 0
  {
    hide CompVals.ReadSize, DecodeFields, DecodeElems, DecodeSized, DecodeEntries, HashKey.Valid;
    match t {
      case TRecord(fields) =>
        var os := RecoverFields(funcs, hk, fields);
        r := if os.Fail? then Fail else Ok(Record(os.v), os.pos);
      case TVector(_) =>
        var n := hk.ReadSize();
        if n.Fail? {
          return Fail;
        }
        var os := RecoverElems(funcs, hk, t, n.v);
        r := if os.Fail? then Fail else Ok(Vector(os.v), os.pos);
      case TList(types) =>
        var vs := RecoverSized(funcs, hk, types);
        r := if vs.Fail? then Fail else Ok(List(vs.v), vs.pos);
      case TTable(_, _) =>
        var n := hk.ReadSize();
        if n.Fail? {
          return Fail;
        }
        var es := RecoverEntries(funcs, hk, t, n.v);
        r := if es.Fail? then Fail else Ok(Table(es.v), es.pos);
      case _ =>
        r := RecoverScalar(funcs, hk, t);
    }
  }

  /** Recover a value, or find that it is missing. */
  method RecoverOneVal(funcs: seq<nat>, hk: HashKey, f: Field) returns (r: Parsed<Maybe>)
    requires hk.Valid() && hk.key != null && hk.isAllocated
    modifies hk`readSize
    ensures hk.Valid() && r == DecodeField(funcs, f, hk.key[..], old(hk.readSize))
    ensures r.Ok? ==> hk.readSize == r.pos
    decreases f, 1, 0
  {
    hide CompVals.ReadFlag, Decode, HashKey.Valid;
    if f.optional {
      var given := hk.ReadFlag();
      if given.Fail? {
        return Fail;
      }
      if !given.v {
        return Ok(Absent, given.pos);
      }
    }
    var v := RecoverVal(funcs, hk, f.t);
    r := if v.Fail? then Fail else Ok(Just(v.v), v.pos);
  }

  lemma {:induction false} FieldsFail(funcs: seq<nat>, fields: seq<Field>, i: nat, buf: seq<Byte>, pos: nat)
    requires i <= |fields| && DecodeFields(funcs, fields[..i], buf, pos).Fail?
    ensures DecodeFields(funcs, fields, buf, pos).Fail?
    decreases |fields|
  {
    hide DecodeField;
    if i < |fields| {
      var n := |fields| - 1;
      assert fields[..n][..i] == fields[..i];
      FieldsFail(funcs, fields[..n], i, buf, pos);
    } else {
      assert fields[..i] == fields;
    }
  }

  method RecoverFields(funcs: seq<nat>, hk: HashKey, fields: seq<Field>) returns (r: Parsed<seq<Maybe>>)
    requires hk.Valid() && hk.key != null && hk.isAllocated
    modifies hk`readSize
    ensures hk.Valid() && r == DecodeFields(funcs, fields, hk.key[..], old(hk.readSize))
    ensures r.Ok? ==> hk.readSize == r.pos
    decreases fields, 2, 0
  {
    hide DecodeField, HashKey.Valid;
    ghost var pos, buf := hk.readSize, hk.key[..];
    var os := [];
    for i := 0 to |fields|
      invariant hk.Valid() && DecodeFields(funcs, fields[..i], buf, pos) == Ok(os, hk.readSize)
    {
      assert fields[..i + 1][..i] == fields[..i];
      var o := RecoverOneVal(funcs, hk, fields[i]);
      if o.Fail? {
        FieldsFail(funcs, fields, i + 1, buf, pos);
        return Fail;
      }
      os := os + [o.v];
    }
    assert fields[..|fields|] == fields;
    r := Ok(os, hk.readSize);
  }

  lemma {:induction false} ElemsFail(funcs: seq<nat>, t: Type, i: nat, n: nat, buf: seq<Byte>, pos: nat)
    requires t.TVector? && i <= n && DecodeElems(funcs, t, i, buf, pos).Fail?
    ensures DecodeElems(funcs, t, n, buf, pos).Fail?
    decreases n
  {
    hide Decode, CompVals.ReadSize, CompVals.ReadFlag, Assigned;
    if i < n {
      ElemsFail(funcs, t, i, n - 1, buf, pos);
    }
  }

  method RecoverElems(funcs: seq<nat>, hk: HashKey, t: Type, n: nat) returns (r: Parsed<seq<Maybe>>)
    requires hk.Valid() && hk.key != null && hk.isAllocated && t.TVector?
    modifies hk`readSize
    ensures hk.Valid() && r == DecodeElems(funcs, t, n, hk.key[..], old(hk.readSize))
    ensures r.Ok? ==> hk.readSize == r.pos
    decreases t, 1, n
  {
    hide Decode, CompVals.ReadSize, CompVals.ReadFlag, Assigned, HashKey.Valid;
    ghost var pos, buf := hk.readSize, hk.key[..];
    var os := [];
    for i := 0 to n
      invariant hk.Valid() && DecodeElems(funcs, t, i, buf, pos) == Ok(os, hk.readSize)
    {
      var o := RecoverElem(funcs, hk, t);
      if o.Fail? {
        ElemsFail(funcs, t, i + 1, n, buf, pos);
        return Fail;
      }
      os := Assigned(os, o.v.0, o.v.1);
    }
    r := Ok(os, hk.readSize);
  }

  /** An index and, if there is one, a value. */
  method RecoverElem(funcs: seq<nat>, hk: HashKey, t: Type) returns (r: Parsed<(nat, Maybe)>)
    requires hk.Valid() && hk.key != null && hk.isAllocated && t.TVector?
    modifies hk`readSize
    ensures hk.Valid() && (r.Ok? ==> hk.readSize == r.pos)
    ensures r == (match ReadSize(hk.key[..], old(hk.readSize))
                  case Fail => Fail
                  case Ok(i, q) =>
                    match ReadFlag(hk.key[..], q)
                    case Fail => Fail
                    case Ok(have, s) =>
                      if !have then Ok((i, Absent), s)
                      else match Decode(funcs, t.elem, hk.key[..], s) case Fail => Fail
                          case Ok(v, u) => Ok((i, Just(v)), u))
    decreases t, 0, 0
  {
    hide Decode, CompVals.ReadSize, CompVals.ReadFlag, HashKey.Valid;
    var i := hk.ReadSize();
    if i.Fail? {
      return Fail;
    }
    var have := hk.ReadFlag();
    if have.Fail? {
      return Fail;
    }
    if !have.v {
      return Ok((i.v, Absent), have.pos);
    }
    var v := RecoverVal(funcs, hk, t.elem);
    r := if v.Fail? then Fail else Ok((i.v, Just(v.v)), v.pos);
  }

  lemma {:induction false} ListFail(funcs: seq<nat>, types: seq<Type>, i: nat, buf: seq<Byte>, pos: nat)
    requires i <= |types| && DecodeList(funcs, types[..i], buf, pos).Fail?
    ensures DecodeList(funcs, types, buf, pos).Fail?
    decreases |types|
  {
    hide Decode;
    if i < |types| {
      var n := |types| - 1;
      assert types[..n][..i] == types[..i];
      ListFail(funcs, types[..n], i, buf, pos);
    } else {
      assert types[..i] == types;
    }
  }

  method RecoverList(funcs: seq<nat>, hk: HashKey, types: seq<Type>) returns (r: Parsed<seq<Val>>)
    requires hk.Valid() && hk.key != null && hk.isAllocated
    modifies hk`readSize
    ensures hk.Valid() && r == DecodeList(funcs, types, hk.key[..], old(hk.readSize))
    ensures r.Ok? ==> hk.readSize == r.pos
    decreases types, 0, 0
  {
    hide Decode, HashKey.Valid;
    ghost var pos, buf := hk.readSize, hk.key[..];
    var vs := [];
    for i := 0 to |types|
      invariant hk.Valid() && DecodeList(funcs, types[..i], buf, pos) == Ok(vs, hk.readSize)
    {
      assert types[..i + 1][..i] == types[..i];
      var v := RecoverVal(funcs, hk, types[i]);
      if v.Fail? {
        ListFail(funcs, types, i + 1, buf, pos);
        return Fail;
      }
      vs := vs + [v.v];
    }
    assert types[..|types|] == types;
    r := Ok(vs, hk.readSize);
  }

  method RecoverSized(funcs: seq<nat>, hk: HashKey, types: seq<Type>) returns (r: Parsed<seq<Val>>)
    requires hk.Valid() && hk.key != null && hk.isAllocated
    modifies hk`readSize
    ensures hk.Valid() && r == DecodeSized(funcs, types, hk.key[..], old(hk.readSize))
    ensures r.Ok? ==> hk.readSize == r.pos
    decreases types, 1, 0
  {
    hide CompVals.ReadSize, DecodeList, HashKey.Valid;
    var n := hk.ReadSize();
    if n.Fail? || n.v > |types| {
      return Fail;
    }
    if n.v == |types| {
      r := RecoverList(funcs, hk, types);
    } else {
      r := RecoverList(funcs, hk, types[..n.v]);
    }
  }

  lemma {:induction false} EntriesFail(funcs: seq<nat>, t: Type, i: nat, n: nat, buf: seq<Byte>, pos: nat)
    requires t.TTable? && i <= n && DecodeEntries(funcs, t, i, buf, pos).Fail?
    ensures DecodeEntries(funcs, t, n, buf, pos).Fail?
    decreases n
  {
    hide Decode, DecodeSized;
    if i < n {
      EntriesFail(funcs, t, i, n - 1, buf, pos);
    }
  }

  method RecoverEntries(funcs: seq<nat>, hk: HashKey, t: Type, n: nat) returns (r: Parsed<seq<Entry>>)
    requires hk.Valid() && hk.key != null && hk.isAllocated && t.TTable?
    modifies hk`readSize
    ensures hk.Valid() && r == DecodeEntries(funcs, t, n, hk.key[..], old(hk.readSize))
    ensures r.Ok? ==> hk.readSize == r.pos
    decreases t, 1, n
  {
    hide Decode, DecodeSized, HashKey.Valid;
    ghost var pos, buf := hk.readSize, hk.key[..];
    var es := [];
    for i := 0 to n
      invariant hk.Valid() && DecodeEntries(funcs, t, i, buf, pos) == Ok(es, hk.readSize)
    {
      var e := RecoverEntry(funcs, hk, t);
      if e.Fail? {
        EntriesFail(funcs, t, i + 1, n, buf, pos);
        return Fail;
      }
      es := es + [e.v];
    }
    r := Ok(es, hk.readSize);
  }

  method RecoverEntry(funcs: seq<nat>, hk: HashKey, t: Type) returns (r: Parsed<Entry>)
    requires hk.Valid() && hk.key != null && hk.isAllocated && t.TTable?
    modifies hk`readSize
    ensures hk.Valid() && (r.Ok? ==> hk.readSize == r.pos)
    ensures r == (match DecodeSized(funcs, t.index, hk.key[..], old(hk.readSize))
                  case Fail => Fail
                  case Ok(index, q) =>
                    if t.result.NoYield? then Ok(Entry(index, Absent), q)
                    else match Decode(funcs, t.result.t, hk.key[..], q) case Fail => Fail
                        case Ok(v, s) => Ok(Entry(index, Just(v)), s))
    decreases t, 0, 0
  {
    hide Decode, DecodeSized, HashKey.Valid;
    var index := RecoverSized(funcs, hk, t.index);
    if index.Fail? {
      return Fail;
    }
    if t.result.NoYield? {
      return Ok(Entry(index.v, Absent), index.pos);
    }
    var v := RecoverVal(funcs, hk, t.result.t);
    r := if v.Fail? then Fail else Ok(Entry(index.v, Just(v.v)), v.pos);
  }
}
