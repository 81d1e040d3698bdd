/** Reserving: the room a value needs is added up before anything is written. */
module CompReserve {
  import opened Octet
  import opened HashBytes
  import opened CompVals
  import opened CompOrder
  import opened CompCanon
  import opened CompKeys
  import opened CompWhole
  import opened CompPass
  import opened CompSteps
  import opened HashKeys

  lemma NoFieldOps(funcs: seq<nat>, b: seq<Byte>)
    ensures Written(b, FieldOps(funcs, [], [])) == b
  {
  }

  lemma NoElemOps(funcs: seq<nat>, elem: Type, b: seq<Byte>)
    ensures Written(b, ElemOps(funcs, elem, [])) == b
  {
  }

  lemma NoListOps(funcs: seq<nat>, b: seq<Byte>)
    ensures Written(b, ListOps(funcs, [], [])) == b
  {
  }

  lemma NoEntryOps(funcs: seq<nat>, index: seq<Type>, result: Yield, b: seq<Byte>)
    ensures Written(b, EntryOps(funcs, index, result, [])) == b
  {
  }

  lemma SortedNone(w: World, index: seq<Type>)
    ensures Sorted(w, index, []) == []
  {
  }

  lemma SortedNext(w: World, index: seq<Type>, cs: seq<Entry>, i: nat)
    requires Indexed(index, cs) && i < |cs|
    ensures Indexed(index, cs[..i]) && Indexed(index, cs[..i + 1])
    ensures Sorted(w, index, cs[..i + 1]) == Placed(w, index, Sorted(w, index, cs[..i]), cs[i])
  {
    assert cs[..i + 1][..i] == cs[..i];
  }

  /** Where an entry is placed: after the last entry that comes before it. */
  lemma {:induction false} PlacedAt(w: World, index: seq<Type>, es: seq<Entry>, e: Entry, p: nat)
    requires Indexed(index, es) && ListHas(index, e.index) && p <= |es|
    requires p > 0 ==> EntryBefore(w, index, es[p - 1], e)
    requires forall q :: p <= q < |es| ==> !EntryBefore(w, index, es[q], e)
    ensures Placed(w, index, es, e) == es[..p] + [e] + es[p..]
  {
    hide EntryBefore, ListHas;
    if es != [] {
      var n := |es| - 1;
      if p <= n {
        PlacedAt(w, index, es[..n], e, p);
        assert es[..n][..p] == es[..p] && es[p..] == es[..n][p..] + [es[n]];
      } else {
        assert es[..p] == es && es[p..] == [];
      }
    }
  }

  ghost predicate Positions(at: seq<nat>, n: nat) { forall k :: 0 <= k < |at| ==> at[k] < n }

  /** The positions list the first |at| entries in sorted order. */
  ghost predicate Follows(w: World, index: seq<Type>, cs: seq<Entry>, at: seq<nat>) {
    && |at| <= |cs| && Positions(at, |cs|)
    && Indexed(index, cs[..|at|]) && |Sorted(w, index, cs[..|at|])| == |at|
    && forall k :: 0 <= k < |at| ==> Sorted(w, index, cs[..|at|])[k] == cs[at[k]]
  }

  /** The next entry belongs at place p of those listed. */
  ghost predicate GoesAt(w: World, index: seq<Type>, cs: seq<Entry>, at: seq<nat>, p: nat) {
    && |at| < |cs| && Positions(at, |cs|) && Indexed(index, cs) && p <= |at|
    && (p > 0 ==> EntryBefore(w, index, cs[at[p - 1]], cs[|at|]))
    && forall q :: p <= q < |at| ==> !EntryBefore(w, index, cs[at[q]], cs[|at|])
  }

  lemma FollowsNext(w: World, index: seq<Type>, cs: seq<Entry>, at: seq<nat>, p: nat)
    requires Follows(w, index, cs, at) && GoesAt(w, index, cs, at, p)
    ensures Follows(w, index, cs, at[..p] + [|at|] + at[p..])
  {
    hide EntryBefore, ListHas, Sorted;
    var i := |at|;
    var sorted := Sorted(w, index, cs[..i]);
    SortedNext(w, index, cs, i);
    PlacedAt(w, index, sorted, cs[i], p);
    var at' := at[..p] + [i] + at[p..];
    var s' := sorted[..p] + [cs[i]] + sorted[p..];
    forall k | 0 <= k < |at'| ensures at'[k] < |cs| && s'[k] == cs[at'[k]] {
      if k < p {
        assert s'[k] == sorted[k] && at'[k] == at[k];
      } else if k > p {
        assert s'[k] == sorted[k - 1] && at'[k] == at[k - 1];
      }
    }
  }

  lemma FollowsNone(w: World, index: seq<Type>, cs: seq<Entry>)
    requires Indexed(index, cs)
    ensures Follows(w, index, cs, [])
  {
    SortedNone(w, index);
    assert cs[..0] == [];
  }

  lemma FollowsAll(w: World, index: seq<Type>, cs: seq<Entry>, at: seq<nat>)
    requires Follows(w, index, cs, at) && |at| == |cs| && Indexed(index, cs)
    ensures forall k :: 0 <= k < |at| ==> Sorted(w, index, cs)[k] == cs[at[k]]
  {
    assert cs[..|at|] == cs;
  }

  /** An entry's stored key comes before another's. */
  predicate Precedes(w: World, index: seq<Type>, result: Yield, es: seq<Entry>, i: nat, j: nat)
    requires TabOk(Tab(index, result, es)) && i < |es| && j < |es|
  {
    assert EntryHas(index, result, es[i]) && EntryHas(index, result, es[j]);
    Before(w.hash, StoredKey(w, index, CanonList(w, index, es[i].index)),
        StoredKey(w, index, CanonList(w, index, es[j].index)))
  }

  lemma PrecedesIs(g: Pass, d: nat, t: Type, es: seq<Entry>, i: nat, j: nat)
    requires t.TTable? && TabOk(Tab(t.index, t.result, es)) && i < |es| && j < |es|
    ensures var cs := FetchedAll(g, d, t, es);
            && ListHas(t.index, cs[i].index) && ListHas(t.index, cs[j].index)
            && (Precedes(g(d), t.index, t.result, es, i, j) <==> EntryBefore(g(d), t.index, cs[i], cs[j]))
  {
    hide StoredKey, Before, CanonList, ListHas, Hit, FormMaybe, HasType;
    var cs := FetchedAll(g, d, t, es);
    assert EntryHas(t.index, t.result, es[i]) && EntryHas(t.index, t.result, es[j]);
    assert cs[i] == Fetched(g, d, t, es, i) && cs[j] == Fetched(g, d, t, es, j);
  }

  /** Where the next entry goes. */
  method PlaceOf(w: World, index: seq<Type>, result: Yield, es: seq<Entry>, at: seq<nat>) returns (p: nat)
    requires TabOk(Tab(index, result, es)) && |at| < |es| && Positions(at, |es|)
    ensures p <= |at| && (p > 0 ==> Precedes(w, index, result, es, at[p - 1], |at|))
    ensures forall q :: p <= q < |at| ==> !Precedes(w, index, result, es, at[q], |at|)
  {
    hide EntryHas, Precedes;
    var i := |at|;
    p := i;
    while p > 0 && !Precedes(w, index, result, es, at[p - 1], i)
      invariant 0 <= p <= i
      invariant forall q :: p <= q < i ==> !Precedes(w, index, result, es, at[q], i)
    {
      p := p - 1;
    }
  }

  lemma PlaceFits(g: Pass, d: nat, t: Type, es: seq<Entry>, at: seq<nat>, p: nat)
    requires t.TTable? && TabOk(Tab(t.index, t.result, es)) && |at| < |es| && Positions(at, |es|) && p <= |at|
    requires p > 0 ==> Precedes(g(d), t.index, t.result, es, at[p - 1], |at|)
    requires forall q :: p <= q < |at| ==> !Precedes(g(d), t.index, t.result, es, at[q], |at|)
    ensures GoesAt(g(d), t.index, FetchedAll(g, d, t, es), at, p)
  {
    hide EntryHas, Precedes, EntryBefore, ListHas, FetchedAll;
    if p > 0 {
      PrecedesIs(g, d, t, es, at[p - 1], |at|);
    }
    forall q | p <= q < |at|
        ensures !EntryBefore(g(d), t.index, FetchedAll(g, d, t, es)[at[q]], FetchedAll(g, d, t, es)[|at|]) {
      PrecedesIs(g, d, t, es, at[q], |at|);
    }
  }

  /** The entries of a table in the order of their stored keys. */
  method OrderedHashkeys(ghost g: Pass, ghost d: nat, w: World, t: Type, es: seq<Entry>) returns (at: seq<nat>)
    requires t.TTable? && TabOk(Tab(t.index, t.result, es)) && w == g(d)
    ensures |at| == |es| && (forall i :: 0 <= i < |at| ==> at[i] < |es|) && forall j :: 0 <= j < |es| ==> j in at
    ensures forall i :: 0 <= i < |at| ==>
              Sorted(w, t.index, FetchedAll(g, d, t, es))[i] == Fetched(g, d, t, es, at[i])
  {
    hide EntryHas, Fetched, ListHas, EntryBefore, Sorted, Follows, GoesAt, Precedes;
    at := [];
    ghost var cs := FetchedAll(g, d, t, es);
    FollowsNone(w, t.index, cs);
    for i := 0 to |es|
      invariant |at| == i && Positions(at, |es|) && Follows(w, t.index, cs, at)
      invariant forall j :: 0 <= j < i ==> j in at
    {
      var p := PlaceOf(w, t.index, t.result, es, at);
      PlaceFits(g, d, t, es, at, p);
      FollowsNext(w, t.index, cs, at, p);
      ghost var was := at;
      at := at[..p] + [i] + at[p..];
      assert forall j :: j in was ==> j in at by {
        assert was == was[..p] + was[p..];
      }
      assert at[p] == i;
    }
    FollowsAll(w, t.index, cs, at);
  }

  // ---------------------------------------------------------------- reserving

  lemma OneReserved(n: nat, p: Put, ops: seq<Put>)
    ensures Reserved(n, [p] + ops) == Reserved(AlignUp(n, p.roomAlign) + p.room, ops)
    ensures Reserved(n, [p]) == AlignUp(n, p.roomAlign) + p.room
  {
    assert ([p] + ops)[1..] == ops;
    assert [p][1..] == [];
  }

  method ReserveScalar(hk: HashKey, t: Type, v: Val)
    requires hk.key == null && HasType(t, v) && Scalar(t)
    modifies hk`keySize
    ensures hk.keySize == Reserved(old(hk.keySize), Ops([], t, v))
  {
    hide AlignUp;
    ghost var ops := Ops([], t, v);
    if t.TString? {
      assert ops == [ops[0]] + [ops[1]];
      OneReserved(hk.keySize, ops[0], [ops[1]]);
      OneReserved(AlignUp(hk.keySize, 4) + 4, ops[1], []);
    } else {
      OneReserved(hk.keySize, ops[0], []);
      assert ops == [ops[0]];
    }
    match t {
      case TInt =>
        hk.Reserve(8, 8);
      case TCount =>
        hk.Reserve(8, 8);
      case TDouble =>
        hk.Reserve(8, 8);
      case TAddr =>
        hk.Reserve(16, 4);
      case TSubnet =>
        hk.Reserve(20, 4);
      case TFunc =>
        hk.Reserve(4, 4);
      case TString =>
        hk.Reserve(4, 4);
        hk.Reserve(|v.text|, 0);
    }
  }

  /** Reserve room for a value that is there; fails if a yield inside is not found. */
  method ReserveVal(g: Pass, d: nat, hk: HashKey, t: Type, v: Val) returns (ok: bool)
    requires hk.key == null && HasType(t, v)
    modifies hk`keySize
    ensures ok <==> Gets(g, d, t, v)
    ensures ok ==> hk.keySize == Reserved(old(hk.keySize), Ops([], t, Form(g, d, t, v)))
    decreases t, 2
  {
    hide Reserved, FieldOps, ElemOps, ListOps, EntryOps, AlignUp, Gets, GetsFields, GetsMaybe, GetsList, GetsEntries;
    hide FieldsHave, ListHas, EntryHas, ElemHas, FormFields, FormElems, FormList, FormTable;
    GetsTurn(g, d, t, v);
    match t {
      case TRecord(fields) =>
        ok := ReserveFields(g, d, hk, fields, v.fields);
      case TVector(elem) =>
        OneReserved(hk.keySize, Size4(|v.elems|), ElemOps([], elem, FormElems(g, d, elem, v.elems)));
        hk.Reserve(4, 4);
        ok := ReserveElems(g, d, hk, elem, v.elems);
      case TList(types) =>
        ok := ReserveSized(g, d, hk, types, v.vals);
      case TTable(index, result) =>
        OneReserved(hk.keySize, Size4(|v.entries|), EntryOps([], index, result, FormTable(g, d, t, v.entries)));
        hk.Reserve(4, 4);
        ok := ReserveEntries(g, d, hk, t, v.entries);
      case _ =>
        ReserveScalar(hk, t, v);
        ok := true;
    }
  }

  /** A missing value needs no room, but a flag if it may be missing; where it may not, only types of
      a fixed size are reserved. */
  method ReserveSingleTypeKeySize(g: Pass, d: nat, hk: HashKey, f: Field, o: Maybe) returns (ok: bool)
    requires hk.key == null && ElemHas(f.t, o)
    modifies hk`keySize
    ensures ok <==> if o.Just? then GetsField(g, d, f, o) else f.optional || (Scalar(f.t) && !f.t.TString?)
    ensures ok && (o.Just? || f.optional) ==>
            hk.keySize == Reserved(old(hk.keySize), OneField([], f, FormField(g, d, f, o)))
    decreases f, 0
  {
    hide Reserved, Ops, HasType, Form, AlignUp, Gets;
    ghost var ops := MaybeOps([], f.t, FormMaybe(g, d, f.t, o));
    if f.optional {
      OneReserved(hk.keySize, Flag(o.Just?), ops);
      hk.Reserve(1, 1);
    } else {
      assert [] + ops == ops;
    }
    match o {
      case Just(v) =>
        ok := ReserveVal(g, d, hk, f.t, v);
      case Absent =>
        NothingReserved(hk.keySize);
        if f.optional {
          return true;
        }
        match f.t {
          case TInt => hk.Reserve(8, 8);
          case TCount => hk.Reserve(8, 8);
          case TDouble => hk.Reserve(8, 8);
          case TAddr => hk.Reserve(16, 4);
          case TSubnet => hk.Reserve(20, 4);
          case TFunc => hk.Reserve(4, 4);
          case _ => return false;
        }
        ok := true;
    }
  }

  method ReserveFields(g: Pass, d: nat, hk: HashKey, fields: seq<Field>, os: seq<Maybe>) returns (ok: bool)
    requires hk.key == null && FieldsHave(fields, os)
    modifies hk`keySize
    ensures ok <==> GetsFields(g, d, fields, os)
    ensures ok ==> hk.keySize == Reserved(old(hk.keySize), FieldOps([], fields, FormFields(g, d, fields, os)))
    decreases fields, 0
  {
    hide Reserved, FieldOps, OneField, ElemHas, FormField, GetsField;
    ghost var cs, n := FormFields(g, d, fields, os), hk.keySize;
    assert fields[..0] == [] && cs[..0] == [];
    NoFieldsReserved(n);
    for i := 0 to |os|
      invariant hk.keySize == Reserved(n, FieldOps([], fields[..i], cs[..i]))
      invariant forall k :: 0 <= k < i ==> GetsField(g, d, fields[k], os[k])
    {
      FieldsReserve(fields, cs, i, n);
      AbsentGets(g, d, fields[i], os[i]);
      assert cs[i] == FormField(g, d, fields[i], os[i]);
      ok := ReserveSingleTypeKeySize(g, d, hk, fields[i], os[i]);
      if !ok {
        return false;
      }
    }
    assert fields[..|os|] == fields && cs[..|os|] == cs;
    ok := true;
  }

  lemma AbsentGets(g: Pass, d: nat, f: Field, o: Maybe)
    requires ElemHas(f.t, o)
    ensures o.Absent? ==> GetsField(g, d, f, o)
  {
  }

  method ReserveElems(g: Pass, d: nat, hk: HashKey, elem: Type, os: seq<Maybe>) returns (ok: bool)
    requires hk.key == null && forall i :: 0 <= i < |os| ==> ElemHas(elem, os[i])
    modifies hk`keySize
    ensures ok <==> forall i :: 0 <= i < |os| ==> GetsMaybe(g, d, elem, os[i])
    ensures ok ==> hk.keySize == Reserved(old(hk.keySize), ElemOps([], elem, FormElems(g, d, elem, os)))
    decreases elem, 5
  {
    hide Reserved, ElemOps, ElemHas, FormMaybe, OneElem, GetsMaybe;
    ghost var cs, n := FormElems(g, d, elem, os), hk.keySize;
    assert cs[..0] == [];
    NoElemsReserved(elem, n);
    for i := 0 to |os|
      invariant hk.keySize == Reserved(n, ElemOps([], elem, cs[..i]))
      invariant forall k :: 0 <= k < i ==> GetsMaybe(g, d, elem, os[k])
    {
      ElemsReserve(elem, cs, i, n);
      assert cs[i] == FormMaybe(g, d, elem, os[i]);
      ok := ReserveElem(g, d, hk, elem, i, os[i]);
      if !ok {
        return false;
      }
    }
    assert cs[..|os|] == cs;
    ok := true;
  }

  lemma NoFieldsReserved(n: nat)
    ensures Reserved(n, FieldOps([], [], [])) == n
  {
  }

  lemma NoListReserved(n: nat)
    ensures Reserved(n, ListOps([], [], [])) == n
  {
  }

  lemma NoElemsReserved(elem: Type, n: nat)
    ensures Reserved(n, ElemOps([], elem, [])) == n
  {
  }

  method ReserveElem(g: Pass, d: nat, hk: HashKey, elem: Type, i: nat, o: Maybe) returns (ok: bool)
    requires hk.key == null && ElemHas(elem, o)
    modifies hk`keySize
    ensures ok <==> GetsMaybe(g, d, elem, o)
    ensures ok ==> hk.keySize == Reserved(old(hk.keySize), OneElem([], elem, i, FormMaybe(g, d, elem, o)))
    decreases elem, 4
  {
    hide Reserved, ElemHas, MaybeOps, AlignUp, Form, Gets, HasType;
    ghost var ops := MaybeOps([], elem, FormMaybe(g, d, elem, o));
    OneReserved(hk.keySize, Size4(i), [Present(o.Just?)] + ops);
    hk.Reserve(4, 4);
    OneReserved(hk.keySize, Present(o.Just?), ops);
    hk.Reserve(4, 4);
    ok := ReserveMaybe(g, d, hk, elem, o);
  }

  method ReserveMaybe(g: Pass, d: nat, hk: HashKey, t: Type, o: Maybe) returns (ok: bool)
    requires hk.key == null && ElemHas(t, o)
    modifies hk`keySize
    ensures ok <==> GetsMaybe(g, d, t, o)
    ensures ok ==> hk.keySize == Reserved(old(hk.keySize), MaybeOps([], t, FormMaybe(g, d, t, o)))
    decreases t, 3
  {
    hide Reserved, Ops, HasType, Form, Gets;
    NothingReserved(hk.keySize);
    ok := true;
    if o.Just? {
      ok := ReserveVal(g, d, hk, t, o.v);
    }
  }

  method ReserveList(g: Pass, d: nat, hk: HashKey, types: seq<Type>, vs: seq<Val>) returns (ok: bool)
    requires hk.key == null && ListHas(types, vs)
    modifies hk`keySize
    ensures ok <==> GetsList(g, d, types, vs)
    ensures ok ==> hk.keySize == Reserved(old(hk.keySize), ListOps([], types, FormList(g, d, types, vs)))
    decreases types, 0
  {
    hide Reserved, ListOps, Ops, HasType, Form, Gets;
    ghost var cs, n := FormList(g, d, types, vs), hk.keySize;
    assert types[..0] == [] && cs[..0] == [];
    NoListReserved(n);
    for i := 0 to |vs|
      invariant hk.keySize == Reserved(n, ListOps([], types[..i], cs[..i]))
      invariant forall k :: 0 <= k < i ==> Gets(g, d, types[k], vs[k])
    {
      ListReserve(types, cs, i, n);
      assert cs[i] == Form(g, d, types[i], vs[i]);
      ok := ReserveVal(g, d, hk, types[i], vs[i]);
      if !ok {
        return false;
      }
    }
    assert types[..|vs|] == types && cs[..|vs|] == cs;
    ok := true;
  }

  method ReserveSized(g: Pass, d: nat, hk: HashKey, types: seq<Type>, vs: seq<Val>) returns (ok: bool)
    requires hk.key == null && ListHas(types, vs)
    modifies hk`keySize
    ensures ok <==> GetsList(g, d, types, vs)
    ensures ok ==>
              hk.keySize == Reserved(old(hk.keySize), [Size4(|vs|)] + ListOps([], types, FormList(g, d, types, vs)))
    decreases types, 1
  {
    hide Reserved, ListOps, FormList, ListHas, AlignUp, GetsList;
    OneReserved(hk.keySize, Size4(|vs|), ListOps([], types, FormList(g, d, types, vs)));
    hk.Reserve(4, 4);
    ok := ReserveList(g, d, hk, types, vs);
  }

  method ReserveEntries(g: Pass, d: nat, hk: HashKey, t: Type, es: seq<Entry>) returns (ok: bool)
    requires hk.key == null && t.TTable? && TabOk(Tab(t.index, t.result, es))
    modifies hk`keySize
    ensures ok <==> GetsEntries(g, d, t, es)
    ensures ok ==> hk.keySize == Reserved(old(hk.keySize), EntryOps([], t.index, t.result, FormTable(g, d, t, es)))
    decreases t, 1
  {
    hide Reserved, EntryOps, OneEntry, EntryHas, Fetched, Renewed, Sorted, ListHas, GetsEntry;
    var at := OrderedHashkeys(g, d, g(d), t, es);
    ghost var cs, n := FormTable(g, d, t, es), hk.keySize;
    assert cs[..0] == [];
    NoEntriesReserved(t.index, t.result, n);
    for i := 0 to |at|
      invariant hk.keySize == Reserved(n, EntryOps([], t.index, t.result, cs[..i]))
      invariant forall k :: 0 <= k < i ==> GetsEntry(g, d, t, es, at[k])
    {
      EntriesReserve(t.index, t.result, cs, i, n);
      assert cs[i] == Renewed(g, d, t, Fetched(g, d, t, es, at[i]));
      ok := ReserveEntry(g, d, hk, t, es, at[i]);
      if !ok {
        return false;
      }
    }
    assert cs[..|at|] == cs;
    forall j | 0 <= j < |es| ensures GetsEntry(g, d, t, es, j) {
      assert j in at;
    }
    ok := true;
  }

  lemma NoEntriesReserved(index: seq<Type>, result: Yield, n: nat)
    ensures Reserved(n, EntryOps([], index, result, [])) == n
  {
  }

  /** The index is made anew from the stored key, and the yield looked up by a key made for that. */
  method ReserveEntry(g: Pass, d: nat, hk: HashKey, t: Type, es: seq<Entry>, i: nat) returns (ok: bool)
    requires hk.key == null && t.TTable? && TabOk(Tab(t.index, t.result, es)) && i < |es|
    modifies hk`keySize
    ensures ok <==> GetsEntry(g, d, t, es, i)
    ensures ok ==>
              hk.keySize ==
                  Reserved(old(hk.keySize), OneEntry([], t.index, t.result, Renewed(g, d, t, Fetched(g, d, t, es, i))))
    decreases t, 0
  {
    hide Reserved, ListOps, CanonList, FormList, FormMaybe, ListHas, HasType, MaybeOps, Size4, GetsList, GetsMaybe, Hit;
    assert EntryHas(t.index, t.result, es[i]);
    var key := CanonList(g(d), t.index, es[i].index);
    ghost var c := Renewed(g, d, t, Fetched(g, d, t, es, i));
    ghost var keys := [Size4(|c.index|)] + ListOps([], t.index, c.index);
    ReservedJoin(hk.keySize, keys, if t.result.YieldOf? then MaybeOps([], t.result.t, c.result) else []);
    ok := ReserveSized(g, d + 1, hk, t.index, key);
    if !ok {
      return false;
    }
    NothingReserved(hk.keySize);
    if t.result.YieldOf? {
      var hit := Hit(g, d, t, es, i);
      if hit.None? {
        return false;
      }
      assert EntryHas(t.index, t.result, es[hit.value]);
      ok := ReserveMaybe(g, d, hk, t.result.t, es[hit.value].result);
    }
  }
}
