/** IP fragment reassembly: when a packet is emitted and what it contains, for arbitrary and for
    well-behaved fragment arrivals. */
module Frag {
  import opened Options
  import opened Octet
  import opened FragBlocks

  /** An arriving fragment: total and header length as in its IP header, payload after the header. */
  datatype Fragment = Fragment(offset: nat, len: nat, hdrLen: nat, mf: bool, proto: nat, data: seq<Byte>)

  /** The header is no longer than the packet, and the payload is the rest of it. */
  predicate WellFormed(f: Fragment) { f.len >= f.hdrLen ==> |f.data| == f.len - f.hdrLen }

  ghost predicate AllWellFormed(fs: seq<Fragment>) { forall i :: 0 <= i < |fs| ==> WellFormed(fs[i]) }

  /** `size` is the payload size of the whole packet, 0 while it is not known. */
  datatype State = State(blocks: seq<Block>, size: nat, nextProto: nat)

  // ---------------------------------------------------------------- completeness test

  /** Last block that can be reached from block i without a hole. */
  function Reach(bs: seq<Block>, i: nat): (k: nat)
    requires i < |bs|
    ensures i <= k < |bs|
    ensures forall j :: i <= j < k ==> bs[j].Upper() == bs[j + 1].start
    ensures k + 1 < |bs| ==> bs[k].Upper() != bs[k + 1].start
    decreases |bs| - i
  {
    if i + 1 < |bs| && bs[i].Upper() == bs[i + 1].start then Reach(bs, i + 1) else i
  }

  /** BlockInserted up to the decision to build a packet: the payload size of the packet. */
  function Decide(bs: seq<Block>, size: nat): Option<nat>
    requires bs != []
  {
    if bs[0].start > 0 || size == 0 then None
    else
      var k := Reach(bs, 0);
      var last := bs[|bs| - 1];
      if k + 1 < |bs| then (if bs[k].Upper() >= size then Some(bs[k].Upper()) else None)
      else if last.Upper() > size then Some(last.Upper())
      else if last.Upper() < size then None
      else Some(size)
  }

  ghost predicate Full(bs: seq<Block>, n: nat) {
    forall x: nat :: x < n ==> Look(bs, x).Some?
  }

  lemma {:induction false} ReachFull(bs: seq<Block>, k: nat)
    requires Ordered(bs) && k < |bs| && bs[0].start == 0
    requires forall j :: 0 <= j < k ==> bs[j].Upper() == bs[j + 1].start
    ensures Full(bs, bs[k].Upper())
  {
    if k > 0 {
      ReachFull(bs, k - 1);
    }
    forall x: nat | x < bs[k].Upper() ensures Look(bs, x).Some? {
      if bs[k].start <= x {
        LookAt(bs, k, x);
      }
    }
  }

  /** A packet is built exactly when the size is known and every byte below it is present; it then
      reaches to the first missing byte, and is never shorter than the known size. */
  lemma DecideExact(bs: seq<Block>, size: nat)
    requires Ordered(bs) && bs != []
    ensures Decide(bs, size).Some? <==> size > 0 && Full(bs, size)
    ensures Decide(bs, size).Some? ==>
              var n := Decide(bs, size).value;
              && n == bs[Reach(bs, 0)].Upper() >= size
              && Full(bs, n) && Look(bs, n).None?
  {
    var k := Reach(bs, 0);
    var n := bs[k].Upper();
    if bs[0].start > 0 {
      LookGap(bs, 0, 0);
    } else if size > 0 {
      ReachFull(bs, k);
      if k + 1 < |bs| {
        assert bs[k].Upper() <= bs[k + 1].start;
      }
      LookGap(bs, k + 1, n);
      assert n < size ==> !Full(bs, size);
    }
  }

  /** The first n bytes. */
  function Assembled(bs: seq<Block>, n: nat): seq<Byte>
    requires Full(bs, n)
  {
    seq(n, x requires 0 <= x < n => Look(bs, x).value)
  }

  // ---------------------------------------------------------------- one arrival

  /** The payload size after the fragment's own claim. */
  function Sized(size: nat, upper: nat, mf: bool): nat {
    var s1 := if mf then size else if size == 0 then upper else if upper > size then upper else size;
    if s1 != 0 && upper > s1 then upper else s1
  }

  /** The state after AddFragment, and the payload of the packet it emits, if any. */
  function Arrive(s: State, f: Fragment): (State, Option<seq<Byte>>)
    requires Ordered(s.blocks)
  {
    if f.len < f.hdrLen then (s, None)
    else
      var size := Sized(s.size, f.offset + f.len - f.hdrLen, f.mf);
      var proto := if f.offset == 0 then f.proto else s.nextProto;
      if f.data == [] then (State(s.blocks, size, proto), None)
      else
        var bs := Inserted(s.blocks, f.offset, f.data);
        InsertedKeeps(s.blocks, f.offset, f.data, 0);
        DecideExact(bs, size);
        var d := Decide(bs, size);
        if d.Some? then (State(bs, d.value, proto), Some(Assembled(bs, d.value)))
        else (State(bs, size, proto), None)
  }

  /** For arbitrary arrivals: the list stays ordered, a known size never shrinks, older bytes are
      never replaced, and an emitted packet is exactly the bytes below the new size. */
  lemma ArriveKeeps(s: State, f: Fragment)
    requires Ordered(s.blocks) && WellFormed(f)
    ensures var (s', p) := Arrive(s, f);
            && Ordered(s'.blocks)
            && (s.size > 0 ==> s'.size >= s.size)
            && (forall x: nat :: Look(s'.blocks, x) ==
                  if f.len < f.hdrLen then Look(s.blocks, x) else Merged(Look(s.blocks, x), Block(f.offset, f.data), x))
            && (p.Some? ==> |p.value| == s'.size > 0 && forall x: nat :: x < s'.size ==>
                Look(s'.blocks, x) == Some(p.value[x]))
            && (p.None? && f.len >= f.hdrLen && f.data != [] ==> s'.size == 0 || !Full(s'.blocks, s'.size))
  {
    hide Look, Merged, Inserted, Decide, Full, Assembled;
    if f.len >= f.hdrLen && f.data != [] {
      var bs := Inserted(s.blocks, f.offset, f.data);
      forall x: nat ensures Look(bs, x) == Merged(Look(s.blocks, x), Block(f.offset, f.data), x) {
        InsertedKeeps(s.blocks, f.offset, f.data, x);
      }
      InsertedKeeps(s.blocks, f.offset, f.data, 0);
      var size := Sized(s.size, f.offset + f.len - f.hdrLen, f.mf);
      DecideExact(bs, size);
      if Decide(bs, size).Some? {
        AssembledHolds(bs, Decide(bs, size).value);
      }
    } else {
      forall x: nat ensures Merged(Look(s.blocks, x), Block(f.offset, []), x) == Look(s.blocks, x) {
        MergedEmpty(Look(s.blocks, x), f.offset, x);
      }
    }
  }

  lemma AssembledHolds(bs: seq<Block>, n: nat)
    requires Full(bs, n)
    ensures |Assembled(bs, n)| == n && forall x: nat :: x < n ==> Look(bs, x) == Some(Assembled(bs, n)[x])
  {
  }

  lemma MergedEmpty(oldByte: Option<Byte>, start: nat, x: nat)
    ensures Merged(oldByte, Block(start, []), x) == oldByte
  {
  }

  // ---------------------------------------------------------------- runs

  function Start(proto: nat): State { State([], 0, proto) }

  function After(s: State, fs: seq<Fragment>): (s': State)
    requires Ordered(s.blocks) && AllWellFormed(fs)
    ensures Ordered(s'.blocks)
    decreases |fs|
  {
    if fs == [] then s
    else
      var n := |fs| - 1;
      var s1 := After(s, fs[..n]);
      ArriveKeeps(s1, fs[n]);
      Arrive(s1, fs[n]).0
  }

  /** What the i-th arrival of a run emits. */
  function Emitted(s: State, fs: seq<Fragment>, i: nat): Option<seq<Byte>>
    requires Ordered(s.blocks) && i < |fs| && AllWellFormed(fs)
  {
    Arrive(After(s, fs[..i]), fs[i]).1
  }

  /** Over every run, once the size is known it never decreases. */
  lemma {:induction false} SizeNeverShrinks(s: State, fs: seq<Fragment>, i: nat)
    requires Ordered(s.blocks) && i <= |fs| && AllWellFormed(fs)
    ensures After(s, fs[..i]).size > 0 ==> After(s, fs).size >= After(s, fs[..i]).size
    decreases |fs|
  {
    if i == |fs| {
      assert fs[..i] == fs;
    } else {
      var n := |fs| - 1;
      assert fs[..n][..i] == fs[..i];
      SizeNeverShrinks(s, fs[..n], i);
      ArriveKeeps(After(s, fs[..n]), fs[n]);
    }
  }

  /** Fragments that are taken in, where they end, and those that say where the packet does. */
  predicate Taken(f: Fragment) { f.len >= f.hdrLen }

  function UpperOf(f: Fragment): nat
    requires Taken(f)
  {
    f.offset + f.len - f.hdrLen
  }

  predicate Ends(f: Fragment) { Taken(f) && !f.mf && UpperOf(f) > 0 }

  /** Over every run: the protocol named is that of the last fragment from the start of the payload. */
  lemma {:induction false} NextProtoIs(s: State, fs: seq<Fragment>, i: nat)
    requires Ordered(s.blocks) && AllWellFormed(fs) && i <= |fs|
    requires i < |fs| ==> Taken(fs[i]) && fs[i].offset == 0
    requires forall j :: (if i < |fs| then i else -1) < j < |fs| ==> !(Taken(fs[j]) && fs[j].offset == 0)
    ensures After(s, fs).nextProto == if i < |fs| then fs[i].proto else s.nextProto
    decreases |fs|
  {
    hide Decide, Inserted, Sized, Assembled;
    if fs != [] && i != |fs| - 1 {
      var n := |fs| - 1;
      assert forall j :: 0 <= j < n ==> fs[..n][j] == fs[j];
      NextProtoIs(s, fs[..n], if i < n then i else n);
    }
  }

  /** Over every run: a position holds the byte of the first fragment taken in that has one for it. */
  lemma {:induction false} FirstWins(proto: nat, fs: seq<Fragment>, x: nat, i: nat)
    requires AllWellFormed(fs) && i <= |fs| && (i < |fs| ==> Taken(fs[i]) && Holds(fs[i], x))
    requires forall j :: 0 <= j < i ==> !(Taken(fs[j]) && Holds(fs[j], x))
    ensures Look(After(Start(proto), fs).blocks, x) ==
            if i < |fs| then Some(fs[i].data[x - fs[i].offset]) else None
    decreases |fs|
  {
    hide Look, Arrive;
    if fs == [] {
      assert After(Start(proto), fs).blocks == [];
      LookNone([], x);
    } else {
      var n := |fs| - 1;
      FirstWins(proto, fs[..n], x, if i < n then i else n);
      ArriveKeeps(After(Start(proto), fs[..n]), fs[n]);
    }
  }

  /** A last fragment has been seen. */
  ghost predicate Ended(fs: seq<Fragment>) { exists j :: 0 <= j < |fs| && Ends(fs[j]) }

  lemma EndedLast(fs: seq<Fragment>)
    requires fs != []
    ensures Ended(fs) <==> Ended(fs[..|fs| - 1]) || Ends(fs[|fs| - 1])
  {
    var n := |fs| - 1;
    if Ended(fs[..n]) {
      var j :| 0 <= j < n && Ends(fs[..n][j]);
      assert Ends(fs[j]);
    }
    if Ended(fs) {
      var j :| 0 <= j < |fs| && Ends(fs[j]);
      assert j < n ==> Ends(fs[..n][j]);
    }
  }

  /** Over every run: the size is known once a last fragment has been seen. */
  lemma {:induction false} SizeKnown(proto: nat, fs: seq<Fragment>)
    requires AllWellFormed(fs)
    ensures After(Start(proto), fs).size > 0 <==> Ended(fs)
    decreases |fs|
  {
    if fs != [] {
      var n := |fs| - 1;
      SizeKnown(proto, fs[..n]);
      EndedLast(fs);
      var s := After(Start(proto), fs[..n]);
      ArriveSizes(s, fs[n]);
      assert After(Start(proto), fs) == Arrive(s, fs[n]).0;
      hide After, Arrive, Ended;
    }
  }

  /** From then on it is no less than where any fragment ends. */
  lemma SizeCovers(proto: nat, fs: seq<Fragment>, k: nat)
    requires AllWellFormed(fs) && k < |fs| && Taken(fs[k]) && Ended(fs[..k + 1])
    ensures UpperOf(fs[k]) <= After(Start(proto), fs).size
  {
    hide Arrive, Ended;
    var upTo := fs[..k + 1];
    assert upTo[..k] == fs[..k] && upTo[k] == fs[k];
    SizeKnown(proto, upTo);
    ArriveSizes(After(Start(proto), fs[..k]), fs[k]);
    SizeNeverShrinks(Start(proto), fs, k + 1);
  }

  /** And as long as nothing has been emitted, it is where one of these ends. */
  lemma {:induction false} SizeReached(proto: nat, fs: seq<Fragment>) returns (k: nat)
    requires AllWellFormed(fs) && (forall i :: 0 <= i < |fs| ==> Emitted(Start(proto), fs, i).None?)
    requires Ended(fs)
    ensures k < |fs| && Taken(fs[k]) && Ended(fs[..k + 1]) && UpperOf(fs[k]) == After(Start(proto), fs).size
    decreases |fs|
  {
    hide Arrive, Ended;
    var n := |fs| - 1;
    assert fs != [] by { NeverEnded(); }
    SizeKnown(proto, fs);
    SizeKnown(proto, fs[..n]);
    EndedLast(fs);
    var s := After(Start(proto), fs[..n]);
    assert Emitted(Start(proto), fs, n).None?;
    ArriveSizes(s, fs[n]);
    forall i | 0 <= i < n ensures Emitted(Start(proto), fs[..n], i).None? {
      assert fs[..n][..i] == fs[..i] && fs[..n][i] == fs[i];
      assert Emitted(Start(proto), fs, i).None?;
    }
    assert fs[..n + 1] == fs;
    if After(Start(proto), fs).size == s.size {
      k := SizeReached(proto, fs[..n]);
      assert fs[..n][..k + 1] == fs[..k + 1];
    } else {
      k := n;
    }
  }

  lemma NeverEnded()
    ensures !Ended([])
  {
  }

  /** What one arrival does to the size: unknown until a last fragment, then the largest end; an emitted packet
      reaches to the first missing byte. */
  lemma ArriveSizes(s: State, f: Fragment)
    requires Ordered(s.blocks) && WellFormed(f)
    ensures var (s', p) := Arrive(s, f);
            && (!Taken(f) ==> s' == s)
            && (Taken(f) && s.size == 0 ==> (s'.size > 0 <==> Ends(f)))
            && (Taken(f) && s'.size > 0 ==> s'.size >= UpperOf(f) && s'.size >= s.size)
            && (Taken(f) && s'.size > 0 && p.None? ==> s'.size == s.size || s'.size == UpperOf(f))
            && (p.Some? ==> Look(s'.blocks, s'.size).None?)
  {
    hide Look, Inserted, Decide, Full, Assembled;
    if Taken(f) && f.data != [] {
      var bs := Inserted(s.blocks, f.offset, f.data);
      InsertedKeeps(s.blocks, f.offset, f.data, 0);
      DecideExact(bs, Sized(s.size, UpperOf(f), f.mf));
    }
  }

  // ---------------------------------------------------------------- fragments of one payload

  /** `f` carries the bytes of `payload` at its offset; MF is clear exactly on what reaches the end. */
  ghost predicate PieceOf(f: Fragment, payload: seq<Byte>) {
    && f.len == f.hdrLen + |f.data| && f.data != []
    && f.offset + |f.data| <= |payload|
    && f.data == payload[f.offset..f.offset + |f.data|]
    && (f.mf <==> f.offset + |f.data| < |payload|)
  }

  ghost predicate AllPieces(fs: seq<Fragment>, payload: seq<Byte>)
    ensures AllPieces(fs, payload) ==> AllWellFormed(fs)
  {
    forall i :: 0 <= i < |fs| ==> PieceOf(fs[i], payload)
  }

  ghost predicate Holds(f: Fragment, x: nat) { f.offset <= x < f.offset + |f.data| }

  ghost predicate Covers(fs: seq<Fragment>, x: nat) {
    exists i :: 0 <= i < |fs| && Holds(fs[i], x)
  }

  ghost predicate CoversAll(fs: seq<Fragment>, n: nat) {
    forall x: nat :: x < n ==> Covers(fs, x)
  }

  lemma CoversLast(fs: seq<Fragment>, x: nat)
    requires fs != []
    ensures Covers(fs, x) <==> Covers(fs[..|fs| - 1], x) || Holds(fs[|fs| - 1], x)
  {
    var n := |fs| - 1;
    if Covers(fs[..n], x) {
      var i :| 0 <= i < n && Holds(fs[..n][i], x);
      assert Holds(fs[i], x);
    }
    if Covers(fs, x) {
      var i :| 0 <= i < |fs| && Holds(fs[i], x);
      assert i < n ==> Holds(fs[..n][i], x);
    }
  }

  /** The state after any arrivals of pieces of one payload, overlapping or repeated as they may be:
      exactly the covered bytes are held, and the size is known once the end has been seen. */
  ghost predicate Follows(s: State, fs: seq<Fragment>, payload: seq<Byte>) {
    && Ordered(s.blocks)
    && (forall x: nat :: Look(s.blocks, x) == if x < |payload| && Covers(fs, x) then Some(payload[x]) else None)
    && (s.size == if |payload| > 0 && Covers(fs, |payload| - 1) then |payload| else 0)
  }

  lemma {:induction false} PiecesFollow(proto: nat, fs: seq<Fragment>, payload: seq<Byte>)
    requires AllPieces(fs, payload)
    ensures Follows(After(Start(proto), fs), fs, payload)
    decreases |fs|
  {
    if fs != [] {
      var n := |fs| - 1;
      PiecesFollow(proto, fs[..n], payload);
      var s := After(Start(proto), fs[..n]);
      assert PieceOf(fs[n], payload);
      PieceArrives(s, fs, payload);
    }
  }

  lemma PieceArrives(s: State, fs: seq<Fragment>, payload: seq<Byte>)
    requires fs != [] && Follows(s, fs[..|fs| - 1], payload) && PieceOf(fs[|fs| - 1], payload)
    ensures Follows(Arrive(s, fs[|fs| - 1]).0, fs, payload)
    ensures Arrive(s, fs[|fs| - 1]).1 == if CoversAll(fs, |payload|) then Some(payload) else None
  {
    hide Look, Covers, Inserted, Decide, Assembled;
    var f := fs[|fs| - 1];
    var bs := Inserted(s.blocks, f.offset, f.data);
    var size := Sized(s.size, f.offset + |f.data|, f.mf);
    PieceLooks(s, fs, payload);
    PieceSizes(s, fs, payload);
    DecideExact(bs, size);
    FullIsCovered(bs, fs, payload);
    if Decide(bs, size).Some? {
      var n := Decide(bs, size).value;
      assert n == |payload| by {
        assert Look(bs, n).None? && Full(bs, n);
        assert n > |payload| ==> Look(bs, |payload|).None?;
      }
      AssembledIs(bs, payload);
    }
  }

  lemma PieceLooks(s: State, fs: seq<Fragment>, payload: seq<Byte>)
    requires fs != [] && Follows(s, fs[..|fs| - 1], payload) && PieceOf(fs[|fs| - 1], payload)
    ensures var f := fs[|fs| - 1];
            var bs := Inserted(s.blocks, f.offset, f.data);
            && Ordered(bs) && bs != []
            && forall x: nat :: Look(bs, x) == if x < |payload| && Covers(fs, x) then Some(payload[x]) else None
  {
    hide Look, Covers, Inserted;
    var f := fs[|fs| - 1];
    InsertedKeeps(s.blocks, f.offset, f.data, 0);
    forall x: nat ensures Look(Inserted(s.blocks, f.offset, f.data), x) ==
                          if x < |payload| && Covers(fs, x) then Some(payload[x]) else None {
      InsertedKeeps(s.blocks, f.offset, f.data, x);
      CoversLast(fs, x);
    }
  }

  lemma PieceSizes(s: State, fs: seq<Fragment>, payload: seq<Byte>)
    requires fs != [] && Follows(s, fs[..|fs| - 1], payload) && PieceOf(fs[|fs| - 1], payload)
    ensures var f := fs[|fs| - 1];
            Sized(s.size, f.offset + |f.data|, f.mf) == if Covers(fs, |payload| - 1) then |payload| else 0
  {
    hide Look, Covers;
    CoversLast(fs, |payload| - 1);
  }

  lemma AssembledIs(bs: seq<Block>, payload: seq<Byte>)
    requires Full(bs, |payload|) && forall x: nat :: x < |payload| ==> Look(bs, x) == Some(payload[x])
    ensures Assembled(bs, |payload|) == payload
  {
  }

  lemma FullIsCovered(bs: seq<Block>, fs: seq<Fragment>, payload: seq<Byte>)
    requires forall x: nat :: Look(bs, x) == if x < |payload| && Covers(fs, x) then Some(payload[x]) else None
    ensures Full(bs, |payload|) <==> CoversAll(fs, |payload|)
  {
  }

  /** The i-th arrival emits the payload, and nothing else, exactly when the pieces so far cover it. */
  lemma EmitsWhenCovered(proto: nat, fs: seq<Fragment>, payload: seq<Byte>, i: nat)
    requires i < |fs| && AllPieces(fs, payload)
    ensures Emitted(Start(proto), fs, i) == if CoversAll(fs[..i + 1], |payload|) then Some(payload) else None
  {
    PiecesFollow(proto, fs[..i], payload);
    assert fs[..i + 1][..i] == fs[..i] && fs[..i + 1][i] == fs[i];
    PieceArrives(After(Start(proto), fs[..i]), fs[..i + 1], payload);
  }

  ghost predicate Disjoint(fs: seq<Fragment>) {
    forall i, j, x: nat :: 0 <= i < j < |fs| && Holds(fs[i], x) ==> !Holds(fs[j], x)
  }

  /** A payload split into disjoint non-empty pieces, delivered once each in any order, yields no
      packet before the last missing piece and then exactly the payload. */
  lemma SplitReassembles(proto: nat, fs: seq<Fragment>, payload: seq<Byte>, i: nat)
    requires i < |fs| && AllPieces(fs, payload)
    requires Disjoint(fs) && CoversAll(fs, |payload|)
    ensures Emitted(Start(proto), fs, i) == if i == |fs| - 1 then Some(payload) else None
  {
    EmitsWhenCovered(proto, fs, payload, i);
    if i == |fs| - 1 {
      assert fs[..i + 1] == fs;
    } else {
      var last := fs[|fs| - 1];
      assert PieceOf(last, payload);
      assert Holds(last, last.offset);
      if Covers(fs[..i + 1], last.offset) {
        var j :| 0 <= j < i + 1 && Holds(fs[..i + 1][j], last.offset);
        assert Holds(fs[j], last.offset);
      }
    }
  }
}
