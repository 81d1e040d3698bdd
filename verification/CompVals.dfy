/** Composite index values, the script of writes a value makes, and the reader that recovers it. */
module CompVals {
  import opened Octet
  import opened HashBytes

  /** `TInt` stands for int, bool and enum, `TCount` for count and port, `TDouble` for double, interval
      and time. */
  datatype Type =
    | TInt | TCount | TDouble | TAddr | TSubnet | TString | TFunc
    | TRecord(fields: seq<Field>)
    | TVector(elem: Type)
    | TList(types: seq<Type>)
    | TTable(index: seq<Type>, result: Yield)

  datatype Field = Field(t: Type, optional: bool)

  /** A set has no yield. */
  datatype Yield = NoYield | YieldOf(t: Type)

  datatype Val =
    | Int(i: int) | Count(u: nat) | Double(word: seq<Byte>)
    | Addr(bytes: seq<Byte>) | Subnet(prefix: seq<Byte>, width: nat)
    | Str(text: seq<Byte>) | Func(f: nat)
    | Record(fields: seq<Maybe>)
    | Vector(elems: seq<Maybe>)
    | List(vals: seq<Val>)
    | Table(entries: seq<Entry>)

  /** A value that may be absent: an unset optional field, a hole of a vector. */
  datatype Maybe = Absent | Just(v: Val)

  datatype Entry = Entry(index: seq<Val>, result: Maybe)

  // ---------------------------------------------------------------- typing

  ghost predicate HasType(t: Type, v: Val)
    decreases v
  {
    match t
    case TInt => v.Int? && -TWO63 <= v.i < TWO63
    case TCount => v.Count? && v.u < TWO64
    case TDouble => v.Double? && |v.word| == 8
    case TAddr => v.Addr? && |v.bytes| == 16
    case TSubnet => v.Subnet? && |v.prefix| == 16 && v.width < 256
    case TString => v.Str? && |v.text| < TWO31
    case TFunc => v.Func? && v.f < TWO32
    case TRecord(fields) => v.Record? && FieldsHave(fields, v.fields)
    case TVector(elem) => v.Vector? && |v.elems| < TWO32 && forall i :: 0 <= i < |v.elems| ==> ElemHas(elem, v.elems[i])
    case TList(types) => v.List? && |v.vals| < TWO31 && ListHas(types, v.vals)
    case TTable(index, result) => v.Table? && |v.entries| < TWO31 && forall i :: 0 <= i < |v.entries| ==>
        EntryHas(index, result, v.entries[i])
  }

  ghost predicate ElemHas(t: Type, o: Maybe)
    decreases o
  {
    o.Just? ==> HasType(t, o.v)
  }

  ghost predicate FieldsHave(fields: seq<Field>, os: seq<Maybe>)
    decreases os
  {
    && |fields| == |os|
    && forall i :: 0 <= i < |os| ==> ElemHas(fields[i].t, os[i]) && (os[i].Absent? ==> fields[i].optional)
  }

  ghost predicate ListHas(types: seq<Type>, vs: seq<Val>)
    decreases vs
  {
    |types| == |vs| && forall i :: 0 <= i < |vs| ==> HasType(types[i], vs[i])
  }

  ghost predicate EntryHas(index: seq<Type>, result: Yield, e: Entry)
    decreases e
  {
    && |e.index| < TWO31 && ListHas(index, e.index)
    && (if result.NoYield? then e.result.Absent? else e.result.Just? && HasType(result.t, e.result.v))
  }

  // ---------------------------------------------------------------- functions

  /** The position of a function in the table of functions. */
  function IdOf(funcs: seq<nat>, f: nat): (r: nat)
    ensures f in funcs ==> r < |funcs| && funcs[r] == f
  {
    if funcs == [] then 0 else if funcs[0] == f then 0 else 1 + IdOf(funcs[1..], f)
  }

  lemma {:induction false} IdStays(funcs: seq<nat>, funcs': seq<nat>, f: nat)
    requires funcs <= funcs' && f in funcs
    ensures IdOf(funcs', f) == IdOf(funcs, f)
  {
    if funcs[0] != f {
      assert funcs[1..] <= funcs'[1..];
      IdStays(funcs[1..], funcs'[1..], f);
    }
  }

  /** The functions occurring in a value are all in the table of functions. */
  ghost predicate Covers(funcs: seq<nat>, v: Val)
    decreases v
  {
    match v
    case Func(f) => f in funcs
    case Record(fields) => forall i :: 0 <= i < |fields| ==> CoversMaybe(funcs, fields[i])
    case Vector(elems) => forall i :: 0 <= i < |elems| ==> CoversMaybe(funcs, elems[i])
    case List(vals) => CoversList(funcs, vals)
    case Table(entries) => forall i :: 0 <= i < |entries| ==> CoversEntry(funcs, entries[i])
    case _ => true
  }

  ghost predicate CoversMaybe(funcs: seq<nat>, o: Maybe)
    decreases o
  {
    o.Just? ==> Covers(funcs, o.v)
  }

  ghost predicate CoversList(funcs: seq<nat>, vs: seq<Val>)
    decreases vs
  {
    forall i :: 0 <= i < |vs| ==> Covers(funcs, vs[i])
  }

  ghost predicate CoversEntry(funcs: seq<nat>, e: Entry)
    decreases e
  {
    CoversList(funcs, e.index) && CoversMaybe(funcs, e.result)
  }

  // ---------------------------------------------------------------- the script of a value

  function Size4(n: nat): Put { Put(Word(n, 4), 4, 4, 4) }

  /** The flag of an optional field. */
  function Flag(b: bool): Put { Put([if b then 1 else 0], 0, 1, 1) }

  /** The flag of a vector element: written as one byte, reserved as a word. */
  function Present(b: bool): Put { Put([if b then 1 else 0], 0, 4, 4) }

  function Ops(funcs: seq<nat>, t: Type, v: Val): seq<Put>
    requires HasType(t, v)
    decreases v, 1
  {
    match t
    case TInt => [Put(Word(Unsigned(v.i), 8), 8, 8, 8)]
    case TCount => [Put(Word(v.u, 8), 8, 8, 8)]
    case TDouble => [Put(v.word, 8, 8, 8)]
    case TAddr => [Put(v.bytes, 4, 16, 4)]
    case TSubnet => [Put(v.prefix + Word(v.width, 4), 4, 20, 4)]
    case TString => [Size4(|v.text|), Put(v.text, 0, |v.text|, 0)]
    case TFunc => [Size4(IdOf(funcs, v.f))]
    case TRecord(fields) => FieldOps(funcs, fields, v.fields)
    case TVector(elem) => [Size4(|v.elems|)] + ElemOps(funcs, elem, v.elems)
    case TList(types) => [Size4(|v.vals|)] + ListOps(funcs, types, v.vals)
    case TTable(index, result) => [Size4(|v.entries|)] + EntryOps(funcs, index, result, v.entries)
  }

  function MaybeOps(funcs: seq<nat>, t: Type, o: Maybe): seq<Put>
    requires ElemHas(t, o)
    decreases o, 0
  {
    if o.Just? then Ops(funcs, t, o.v) else []
  }

  function OneField(funcs: seq<nat>, f: Field, o: Maybe): seq<Put>
    requires ElemHas(f.t, o)
    decreases o, 1
  {
    (if f.optional then [Flag(o.Just?)] else []) + MaybeOps(funcs, f.t, o)
  }

  function FieldOps(funcs: seq<nat>, fields: seq<Field>, os: seq<Maybe>): seq<Put>
    requires FieldsHave(fields, os)
    decreases os, 0
  {
    if os == [] then []
    else
      var n := |os| - 1;
      assert ElemHas(fields[n].t, os[n]);
      FieldOps(funcs, fields[..n], os[..n]) + OneField(funcs, fields[n], os[n])
  }

  function OneElem(funcs: seq<nat>, elem: Type, i: nat, o: Maybe): seq<Put>
    requires ElemHas(elem, o)
    decreases o, 1
  {
    [Size4(i)] + ([Present(o.Just?)] + MaybeOps(funcs, elem, o))
  }

  function ElemOps(funcs: seq<nat>, elem: Type, os: seq<Maybe>): seq<Put>
    requires forall i :: 0 <= i < |os| ==> ElemHas(elem, os[i])
    decreases os, 0
  {
    if os == [] then []
    else
      var n := |os| - 1;
      ElemOps(funcs, elem, os[..n]) + OneElem(funcs, elem, n, os[n])
  }

  function ListOps(funcs: seq<nat>, types: seq<Type>, vs: seq<Val>): seq<Put>
    requires ListHas(types, vs)
    decreases vs, 0
  {
    if vs == [] then []
    else
      var n := |vs| - 1;
      ListOps(funcs, types[..n], vs[..n]) + Ops(funcs, types[n], vs[n])
  }

  function OneEntry(funcs: seq<nat>, index: seq<Type>, result: Yield, e: Entry): seq<Put>
    requires EntryHas(index, result, e)
    decreases e, 1
  {
    ([Size4(|e.index|)] + ListOps(funcs, index, e.index)) + if result.YieldOf? then MaybeOps(funcs, result.t, e.result)
        else []
  }

  function EntryOps(funcs: seq<nat>, index: seq<Type>, result: Yield, es: seq<Entry>): seq<Put>
    requires forall i :: 0 <= i < |es| ==> EntryHas(index, result, es[i])
    decreases es, 0
  {
    if es == [] then []
    else
      var n := |es| - 1;
      EntryOps(funcs, index, result, es[..n]) + OneEntry(funcs, index, result, es[n])
  }

  // ---------------------------------------------------------------- reading

  datatype Parsed<T> = Fail | Ok(v: T, pos: nat)

  /** An aligned read that stays within the key. */
  function Read(buf: seq<Byte>, pos: nat, n: nat, a: nat): Parsed<seq<Byte>> {
    var at := AlignUp(pos, a);
    if at + n <= |buf| then Ok(buf[at..at + n], at + n) else Fail
  }

  function ReadSize(buf: seq<Byte>, pos: nat): Parsed<nat> {
    match Read(buf, pos, 4, 4)
    case Fail => Fail
    case Ok(w, p) => Ok(Number(w), p)
  }

  function ReadFlag(buf: seq<Byte>, pos: nat): Parsed<bool> {
    match Read(buf, pos, 1, 0)
    case Fail => Fail
    case Ok(w, p) => Ok(w != [0], p)
  }

  /** Recover one value of a type; failures are the reader's internal errors. */
  function Decode(funcs: seq<nat>, t: Type, buf: seq<Byte>, pos: nat): Parsed<Val>
    decreases t, 1, 0
  {
    match t
    case TInt => (match Read(buf, pos, 8, 8) case Fail => Fail case Ok(w, p) => Ok(Int(Signed(Number(w))), p))
    case TCount => (match Read(buf, pos, 8, 8) case Fail => Fail case Ok(w, p) => Ok(Count(Number(w)), p))
    case TDouble => (match Read(buf, pos, 8, 8) case Fail => Fail case Ok(w, p) => Ok(Double(w), p))
    case TAddr => (match Read(buf, pos, 16, 4) case Fail => Fail case Ok(w, p) => Ok(Addr(w), p))
    case TSubnet =>
      (match Read(buf, pos, 16, 4)
       case Fail => Fail
       case Ok(w, p) => match ReadSize(buf, p) case Fail => Fail case Ok(n, q) => Ok(Subnet(w, n), q))
    case TString =>
      (match ReadSize(buf, pos)
       case Fail => Fail
       case Ok(n, p) => match Read(buf, p, n, 0) case Fail => Fail case Ok(w, q) => Ok(Str(w), q))
    case TFunc =>
      (match ReadSize(buf, pos) case Fail => Fail case Ok(id, p) => if id < |funcs| then Ok(Func(funcs[id]), p)
          else Fail)
    case TRecord(fields) =>
      (match DecodeFields(funcs, fields, buf, pos) case Fail => Fail case Ok(os, p) => Ok(Record(os), p))
    case TVector(_) =>
      (match ReadSize(buf, pos)
       case Fail => Fail
       case Ok(n, p) => match DecodeElems(funcs, t, n, buf, p) case Fail => Fail case Ok(os, q) => Ok(Vector(os), q))
    case TList(types) =>
      (match DecodeSized(funcs, types, buf, pos) case Fail => Fail case Ok(vs, p) => Ok(List(vs), p))
    case TTable(_, _) =>
      (match ReadSize(buf, pos)
       case Fail => Fail
       case Ok(n, p) => match DecodeEntries(funcs, t, n, buf, p) case Fail => Fail case Ok(es, q) => Ok(Table(es), q))
  }

  function DecodeFields(funcs: seq<nat>, fields: seq<Field>, buf: seq<Byte>, pos: nat): Parsed<seq<Maybe>>
    decreases fields, 0, 0
  {
    if fields == [] then Ok([], pos)
    else
      var n := |fields| - 1;
      match DecodeFields(funcs, fields[..n], buf, pos)
      case Fail => Fail
      case Ok(os, p) => match DecodeField(funcs, fields[n], buf, p) case Fail => Fail case Ok(o, q) => Ok(os + [o], q)
  }

  function DecodeField(funcs: seq<nat>, f: Field, buf: seq<Byte>, pos: nat): Parsed<Maybe>
    decreases f, 0, 0
  {
    match (if f.optional then ReadFlag(buf, pos) else Ok(true, pos))
    case Fail => Fail
    case Ok(given, p) =>
      if !given then Ok(Absent, p)
      else match Decode(funcs, f.t, buf, p) case Fail => Fail case Ok(v, q) => Ok(Just(v), q)
  }

  /** Assigning past the end of a vector leaves holes. */
  function Assigned(os: seq<Maybe>, i: nat, o: Maybe): seq<Maybe> {
    if i < |os| then os[i := o] else os + seq(i - |os|, _ => Absent) + [o]
  }

  function DecodeElems(funcs: seq<nat>, t: Type, n: nat, buf: seq<Byte>, pos: nat): Parsed<seq<Maybe>>
    requires t.TVector?
    decreases t, 0, n
  {
    if n == 0 then Ok([], pos)
    else
      match DecodeElems(funcs, t, n - 1, buf, pos)
      case Fail => Fail
      case Ok(os, p) =>
        match ReadSize(buf, p)
        case Fail => Fail
        case Ok(i, q) =>
          match ReadFlag(buf, q)
          case Fail => Fail
          case Ok(have, s) =>
            if !have then Ok(Assigned(os, i, Absent), s)
            else match Decode(funcs, t.elem, buf, s) case Fail => Fail case Ok(v, u) => Ok(Assigned(os, i, Just(v)), u)
  }

  function DecodeSized(funcs: seq<nat>, types: seq<Type>, buf: seq<Byte>, pos: nat): Parsed<seq<Val>>
    decreases types, 1, 0
  {
    match ReadSize(buf, pos)
    case Fail => Fail
    case Ok(n, p) =>
      if n == |types| then DecodeList(funcs, types, buf, p)
      else if n < |types| then DecodeList(funcs, types[..n], buf, p)
      else Fail
  }

  function DecodeList(funcs: seq<nat>, types: seq<Type>, buf: seq<Byte>, pos: nat): Parsed<seq<Val>>
    decreases types, 0, 0
  {
    if types == [] then Ok([], pos)
    else
      var n := |types| - 1;
      match DecodeList(funcs, types[..n], buf, pos)
      case Fail => Fail
      case Ok(vs, p) => match Decode(funcs, types[n], buf, p) case Fail => Fail case Ok(v, q) => Ok(vs + [v], q)
  }

  /** The entries of a table, in the order in which they are assigned. */
  function DecodeEntries(funcs: seq<nat>, t: Type, n: nat, buf: seq<Byte>, pos: nat): Parsed<seq<Entry>>
    requires t.TTable?
    decreases t, 0, n
  {
    if n == 0 then Ok([], pos)
    else
      match DecodeEntries(funcs, t, n - 1, buf, pos)
      case Fail => Fail
      case Ok(es, p) =>
        match DecodeSized(funcs, t.index, buf, p)
        case Fail => Fail
        case Ok(index, q) =>
          if t.result.NoYield? then Ok(es + [Entry(index, Absent)], q)
          else match Decode(funcs, t.result.t, buf, q) case Fail => Fail
              case Ok(v, s) => Ok(es + [Entry(index, Just(v))], s)
  }
}
