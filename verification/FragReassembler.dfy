/** FragReassembler and the block list below it, updated in place. Each method is proved to do what
    Frag.Arrive and FragBlocks.Inserted say. */
module FragReassemblers {
  import opened Options
  import opened Octet
  import opened FragBlocks
  import opened Frag

  function Version(hdr: seq<Byte>): nat
    requires hdr != []
  {
    hdr[0] / 16
  }

  /** The header of a first fragment: long enough for its version. */
  predicate IsHeader(hdr: seq<Byte>) {
    hdr != [] && (Version(hdr) == 4 ==> |hdr| >= 20) && (Version(hdr) == 6 ==> |hdr| >= 40)
  }

  /** Two bytes in network order, at position i; larger numbers are cut off. */
  function WithShort(pkt: seq<Byte>, i: nat, n: nat): (r: seq<Byte>)
    requires i + 1 < |pkt|
    ensures |r| == |pkt| && r[i] == n / 256 % 256 && r[i + 1] == n % 256
    ensures forall j :: 0 <= j < |pkt| && j != i && j != i + 1 ==> r[j] == pkt[j]
  {
    pkt[i := n / 256 % 256][i + 1 := n % 256]
  }

  // ---------------------------------------------------------------- the chain of IPv6 headers

  const IPPROTO_HOPOPTS := 0
  const IPPROTO_IPV6 := 41
  const IPPROTO_ROUTING := 43
  const IPPROTO_FRAGMENT := 44
  const IPPROTO_ESP := 50
  const IPPROTO_AH := 51
  const IPPROTO_NONE := 59
  const IPPROTO_DSTOPTS := 60
  const IPPROTO_MOBILITY := 135

  predicate IsExtension(t: nat) {
    t in [IPPROTO_HOPOPTS, IPPROTO_ROUTING, IPPROTO_DSTOPTS, IPPROTO_FRAGMENT, IPPROTO_AH, IPPROTO_ESP,
        IPPROTO_MOBILITY]
  }

  /** Headers no chain goes on behind. */
  predicate IsLast(t: nat) { t == IPPROTO_FRAGMENT || t == IPPROTO_ESP || t == IPPROTO_MOBILITY }

  /** A header at a position, with enough of it there to read what follows and how long it is. */
  predicate HeaderAt(pkt: seq<Byte>, at: nat, t: nat) {
    at + 2 <= |pkt| && (t == IPPROTO_IPV6 || IsExtension(t)) && (t == IPPROTO_IPV6 ==> at + 40 <= |pkt|)
  }

  /** Where a header says what follows it. */
  function NextField(at: nat, t: nat): nat { if t == IPPROTO_IPV6 then at + 6 else at }

  function NextType(pkt: seq<Byte>, at: nat, t: nat): nat
    requires HeaderAt(pkt, at, t)
  {
    if t == IPPROTO_ESP then IPPROTO_NONE else pkt[NextField(at, t)]
  }

  function HeaderLength(pkt: seq<Byte>, at: nat, t: nat): (n: nat)
    requires HeaderAt(pkt, at, t)
    ensures n >= 8
  {
    if t == IPPROTO_IPV6 then 40
    else if t == IPPROTO_FRAGMENT || t == IPPROTO_ESP then 8
    else if t == IPPROTO_AH then 8 + 4 * (pkt[at + 1] as int)
    else 8 + 8 * (pkt[at + 1] as int)
  }

  /** The packet after a walk along its headers that puts `next` in place of every fragment header named. */
  function Chained(pkt: seq<Byte>, at: nat, t: nat, next: Byte): (r: seq<Byte>)
    requires HeaderAt(pkt, at, t) || at + 2 > |pkt|
    ensures |r| == |pkt| && forall i :: 0 <= i < |pkt| && i < NextField(at, t) ==> r[i] == pkt[i]
    decreases |pkt| - at
  {
    if at + 2 > |pkt| || at + HeaderLength(pkt, at, t) > |pkt| then pkt
    else
      var found := NextType(pkt, at, t) == IPPROTO_FRAGMENT;
      var pkt' := if found then pkt[NextField(at, t) := next] else pkt;
      var t' := if found then next else NextType(pkt, at, t);
      if IsLast(t) || !IsExtension(t') then pkt' else Chained(pkt', at + HeaderLength(pkt, at, t), t', next)
  }

  /** Only fields that named a fragment header change, and they get the new type. */
  lemma {:induction false} ChainedIs(pkt: seq<Byte>, at: nat, t: nat, next: Byte, i: nat)
    requires (HeaderAt(pkt, at, t) || at + 2 > |pkt|) && i < |pkt|
    ensures Chained(pkt, at, t, next)[i] != pkt[i] ==>
            pkt[i] == IPPROTO_FRAGMENT && Chained(pkt, at, t, next)[i] == next
    decreases |pkt| - at
  {
    if at + 2 <= |pkt| && at + HeaderLength(pkt, at, t) <= |pkt| {
      var found := NextType(pkt, at, t) == IPPROTO_FRAGMENT;
      var pkt' := if found then pkt[NextField(at, t) := next] else pkt;
      var t' := if found then next else NextType(pkt, at, t);
      if !IsLast(t) && IsExtension(t') {
        ChainedIs(pkt', at + HeaderLength(pkt, at, t), t', next, i);
      }
    }
  }

  /** The field of an unfragmentable part that names the fragment header, which follows it directly. */
  function FragmentField(hdr: seq<Byte>, at: nat, t: nat): Option<nat>
    decreases |hdr| - at
  {
    if !HeaderAt(hdr, at, t) || IsLast(t) || at + HeaderLength(hdr, at, t) > |hdr| then None
    else if NextType(hdr, at, t) == IPPROTO_FRAGMENT then
      if at + HeaderLength(hdr, at, t) == |hdr| then Some(NextField(at, t)) else None
    else if !IsExtension(NextType(hdr, at, t)) then None
    else FragmentField(hdr, at + HeaderLength(hdr, at, t), NextType(hdr, at, t))
  }

  /** What lies before an extension header has no part in what it says. */
  lemma HeaderBehind(hdr: seq<Byte>, pkt: seq<Byte>, at: nat, t: nat)
    requires IsExtension(t) && at + 2 <= |pkt|
    ensures HeaderAt(hdr + pkt, |hdr| + at, t) && HeaderAt(pkt, at, t)
    ensures NextField(|hdr| + at, t) == |hdr| + at && NextField(at, t) == at
    ensures NextType(hdr + pkt, |hdr| + at, t) == NextType(pkt, at, t)
    ensures HeaderLength(hdr + pkt, |hdr| + at, t) == HeaderLength(pkt, at, t)
  {
    var both := hdr + pkt;
    assert both[|hdr| + at] == pkt[at] && both[|hdr| + at + 1] == pkt[at + 1];
  }

  lemma {:induction false} ChainedBehind(hdr: seq<Byte>, pkt: seq<Byte>, at: nat, t: nat, next: Byte)
    requires IsExtension(t)
    ensures HeaderAt(hdr + pkt, |hdr| + at, t) || |hdr| + at + 2 > |hdr + pkt|
    ensures HeaderAt(pkt, at, t) || at + 2 > |pkt|
    ensures Chained(hdr + pkt, |hdr| + at, t, next) == hdr + Chained(pkt, at, t, next)
    decreases |pkt| - at
  {
    hide IsExtension, HeaderAt, NextType, HeaderLength, NextField;
    if at + 2 <= |pkt| {
      HeaderBehind(hdr, pkt, at, t);
      var both, found := hdr + pkt, NextType(pkt, at, t) == IPPROTO_FRAGMENT;
      var pkt' := if found then pkt[at := next] else pkt;
      SetBehind(hdr, pkt, at, next);
      var t' := if found then next as int else NextType(pkt, at, t);
      if at + HeaderLength(pkt, at, t) <= |pkt| && !IsLast(t) && IsExtension(t') {
        ChainedBehind(hdr, pkt', at + HeaderLength(pkt, at, t), t', next);
        assert |hdr| + (at + HeaderLength(pkt, at, t)) == |hdr| + at + HeaderLength(both, |hdr| + at, t);
      }
    }
  }

  lemma SetBehind(hdr: seq<Byte>, pkt: seq<Byte>, at: nat, next: Byte)
    requires at < |pkt|
    ensures (hdr + pkt)[|hdr| + at := next] == hdr + pkt[at := next]
  {
  }

  /** What follows the fragment header, walked along if it is an extension header. */
  function Walked(payload: seq<Byte>, next: Byte): (r: seq<Byte>)
    ensures |r| == |payload|
  {
    if IsExtension(next as int) then Chained(payload, 0, next as int, next) else payload
  }

  /** In such a part that field alone changes. Behind it nothing does, unless the new type is that of another
      extension header: then the walk goes on there. */
  lemma {:induction false} ChainedOnce(hdr: seq<Byte>, payload: seq<Byte>, at: nat, t: nat, next: Byte)
    requires HeaderAt(hdr, at, t) && FragmentField(hdr, at, t).Some?
    ensures FragmentField(hdr, at, t).value < |hdr| && HeaderAt(hdr + payload, at, t)
    ensures Chained(hdr + payload, at, t, next) ==
            hdr[FragmentField(hdr, at, t).value := next] + Walked(payload, next)
    decreases |hdr| - at
  {
    hide IsExtension, Chained, HeaderLength;
    HeaderBefore(hdr, payload, at, t);
    ChainedTurn(hdr + payload, at, t, next);
    if NextType(hdr, at, t) != IPPROTO_FRAGMENT {
      ChainedOnce(hdr, payload, at + HeaderLength(hdr, at, t), NextType(hdr, at, t), next);
    } else {
      var f := NextField(at, t);
      assert (hdr + payload)[f := next] == hdr[f := next] + payload;
      if IsExtension(next as int) {
        ChainedBehind(hdr[f := next], payload, 0, next as int, next);
      }
    }
  }

  lemma HeaderBefore(hdr: seq<Byte>, payload: seq<Byte>, at: nat, t: nat)
    requires HeaderAt(hdr, at, t)
    ensures HeaderAt(hdr + payload, at, t) && NextField(at, t) < |hdr|
    ensures NextType(hdr + payload, at, t) == NextType(hdr, at, t)
    ensures HeaderLength(hdr + payload, at, t) == HeaderLength(hdr, at, t)
  {
    hide IsExtension;
    var pkt := hdr + payload;
    assert pkt[at] == hdr[at] && pkt[at + 1] == hdr[at + 1];
    assert t == IPPROTO_IPV6 ==> pkt[at + 6] == hdr[at + 6];
  }

  /** One header of the walk. */
  lemma ChainedTurn(pkt: seq<Byte>, at: nat, t: nat, next: Byte)
    requires HeaderAt(pkt, at, t) && at + HeaderLength(pkt, at, t) <= |pkt| && !IsLast(t)
    ensures var found := NextType(pkt, at, t) == IPPROTO_FRAGMENT;
            var pkt' := if found then pkt[NextField(at, t) := next] else pkt;
            var t' := if found then next as int else NextType(pkt, at, t);
            var at' := at + HeaderLength(pkt, at, t);
            && (IsExtension(t') ==> HeaderAt(pkt', at', t') || at' + 2 > |pkt'|)
            && Chained(pkt, at, t, next) == if IsExtension(t') then Chained(pkt', at', t', next) else pkt'
  {
  }

  // ---------------------------------------------------------------- the rebuilt packet

  /** The packet of a header and a payload, with its length put into the header, and in version 6 the type
      of what follows; none if the version is neither 4 nor 6. */
  function Headed(hdr: seq<Byte>, payload: seq<Byte>, next: nat): Option<seq<Byte>>
    requires IsHeader(hdr)
  {
    var pkt := hdr + payload;
    match Version(hdr)
    case 4 => Some(WithShort(pkt, 2, |pkt|))
    case 6 => Some(Chained(WithShort(pkt, 4, |pkt| - 40), 0, IPPROTO_IPV6, next % 256))
    case _ => None
  }

  /** In version 4 the payload comes out unchanged behind the header, of which only the length field is new. */
  lemma HeadedIs(hdr: seq<Byte>, payload: seq<Byte>, next: nat)
    requires IsHeader(hdr) && Version(hdr) == 4
    ensures Headed(hdr, payload, next).Some?
    ensures var pkt := Headed(hdr, payload, next).value;
            && |pkt| == |hdr| + |payload| && pkt[|hdr|..] == payload
            && (forall i :: 0 <= i < |hdr| && i != 2 && i != 3 ==> pkt[i] == hdr[i])
            && (|pkt| < 65536 ==> (pkt[2] as int) * 256 + pkt[3] == |pkt|)
  {
  }

  /** In version 6 the same, if the header is one that ends before the fragment header, but for the field that
      named it, and the payload is walked along where it begins with another extension header. */
  lemma HeadedSix(hdr: seq<Byte>, payload: seq<Byte>, next: nat)
    requires IsHeader(hdr) && Version(hdr) == 6 && FragmentField(hdr, 0, IPPROTO_IPV6).Some?
    ensures Headed(hdr, payload, next).Some?
    ensures var pkt, at := Headed(hdr, payload, next).value, FragmentField(hdr, 0, IPPROTO_IPV6).value;
            && |pkt| == |hdr| + |payload| && pkt[|hdr|..] == Walked(payload, next % 256)
            && 6 <= at < |hdr| && pkt[at] == next % 256
            && (forall i :: 0 <= i < |hdr| && i != 4 && i != 5 && i != at ==> pkt[i] == hdr[i])
            && (|pkt| - 40 < 65536 ==> (pkt[4] as int) * 256 + pkt[5] == |pkt| - 40)
  {
    hide Chained, FragmentField, IsExtension, Walked;
    var n := |hdr| + |payload| - 40;
    var hdr' := WithShort(hdr, 4, n);
    assert WithShort(hdr + payload, 4, n) == hdr' + payload;
    SameField(hdr, hdr', 0, IPPROTO_IPV6);
    FieldBehind(hdr', 0, IPPROTO_IPV6);
    ChainedOnce(hdr', payload, 0, IPPROTO_IPV6, next % 256);
  }

  lemma {:induction false} SameField(hdr: seq<Byte>, hdr': seq<Byte>, at: nat, t: nat)
    requires |hdr| == |hdr'| && forall i :: 0 <= i < |hdr| && i != 4 && i != 5 ==> hdr[i] == hdr'[i]
    requires t == IPPROTO_IPV6 || at >= 6
    ensures FragmentField(hdr, at, t) == FragmentField(hdr', at, t)
    decreases |hdr| - at
  {
    if HeaderAt(hdr, at, t) && !IsLast(t) && at + HeaderLength(hdr, at, t) <= |hdr| &&
        IsExtension(NextType(hdr, at, t)) {
      SameField(hdr, hdr', at + HeaderLength(hdr, at, t), NextType(hdr, at, t));
    }
  }

  lemma {:induction false} FieldBehind(hdr: seq<Byte>, at: nat, t: nat)
    requires FragmentField(hdr, at, t).Some?
    ensures FragmentField(hdr, at, t).value >= NextField(at, t)
    decreases |hdr| - at
  {
    if NextType(hdr, at, t) != IPPROTO_FRAGMENT {
      FieldBehind(hdr, at + HeaderLength(hdr, at, t), NextType(hdr, at, t));
    }
  }

  /** The k-th piece is the last of the first n from the start of the payload. */
  ghost predicate LastFromStart(fs: seq<Fragment>, n: nat, k: nat)
    requires n <= |fs|
  {
    k < n && fs[k].offset == 0 && forall j :: k < j < n ==> fs[j].offset != 0
  }

  /** A payload that has arrived has a piece from its start. */
  lemma {:induction false} StartArrived(fs: seq<Fragment>, n: nat) returns (k: nat)
    requires n <= |fs| && Covers(fs[..n], 0)
    ensures LastFromStart(fs, n, k)
  {
    var i :| 0 <= i < n && Holds(fs[..n][i], 0);
    assert fs[i].offset == 0;
    if fs[n - 1].offset == 0 {
      k := n - 1;
    } else {
      assert Holds(fs[..n - 1][i], 0);
      k := StartArrived(fs, n - 1);
    }
  }

  /** The packet an IPv6 reassembler puts together from pieces of one payload, in any order, overlapping or
      repeated: the header, the length, the protocol that the piece from the start names, and the payload. */
  lemma RebuiltSix(hdr: seq<Byte>, proto: nat, fs: seq<Fragment>, payload: seq<Byte>, i: nat, k: nat)
    requires IsHeader(hdr) && Version(hdr) == 6 && FragmentField(hdr, 0, IPPROTO_IPV6).Some?
    requires i < |fs| && AllPieces(fs, payload) && CoversAll(fs[..i + 1], |payload|) && LastFromStart(fs, i + 1, k)
    ensures Emitted(Start(proto), fs, i) == Some(payload)
    ensures var next, at := After(Start(proto), fs[..i + 1]).nextProto, FragmentField(hdr, 0, IPPROTO_IPV6).value;
            && Headed(hdr, payload, next).Some?
            && var pkt := Headed(hdr, payload, next).value;
               && |pkt| == |hdr| + |payload| && 6 <= at < |hdr| && pkt[at] == fs[k].proto % 256
               && pkt[|hdr|..] == Walked(payload, fs[k].proto % 256)
               && (forall j :: 0 <= j < |hdr| && j != 4 && j != 5 && j != at ==> pkt[j] == hdr[j])
               && (|pkt| - 40 < 65536 ==> (pkt[4] as int) * 256 + pkt[5] == |pkt| - 40)
  {
    hide Headed, Walked, FragmentField, IsHeader, CoversAll, Emitted;
    var upTo := fs[..i + 1];
    forall j | 0 <= j < |upTo| ensures PieceOf(upTo[j], payload) {
      assert upTo[j] == fs[j] && PieceOf(fs[j], payload);
    }
    EmitsWhenCovered(proto, fs, payload, i);
    NextProtoIs(Start(proto), upTo, k);
    HeadedSix(hdr, payload, After(Start(proto), upTo).nextProto);
  }

  class FragReassembler {
    const protoHdr: seq<Byte>
    var blockList: seq<Block>
    var fragSize: nat
    var nextProto: nat
    var reassembledPkt: Option<seq<Byte>>

    ghost function Value(): Frag.State
      reads this
    {
      Frag.State(blockList, fragSize, nextProto)
    }

    ghost predicate Valid()
      reads this
    {
      Ordered(blockList) && IsHeader(protoHdr)
    }

    constructor (hdr: seq<Byte>, proto: nat)
      requires IsHeader(hdr)
      ensures Valid() && Value() == Start(proto) && protoHdr == hdr && reassembledPkt == None
    {
      protoHdr, blockList, fragSize, nextProto, reassembledPkt := hdr, [], 0, proto, None;
    }

    /** Take in one fragment; a completed packet is the first header, with its new length, and the payload. */
    method AddFragment(f: Fragment)
      requires Valid() && WellFormed(f)
      modifies this
      ensures Valid() && Value() == Arrive(old(Value()), f).0
      ensures var p := Arrive(old(Value()), f).1;
              reassembledPkt == if p.Some? then Headed(protoHdr, p.value, nextProto) else old(reassembledPkt)
    {
      hide Inserted, Decide, Assembled, Look;
      ArriveKeeps(Value(), f);
      if f.len < f.hdrLen {
        return;
      }
      var upperSeq := f.offset + f.len - f.hdrLen;
      if f.offset == 0 {
        nextProto := f.proto;
      }
      if !f.mf {
        if fragSize == 0 {
          fragSize := upperSeq;
        } else if upperSeq != fragSize {
          if upperSeq > fragSize {
            fragSize := upperSeq;
          }
        }
      }
      if fragSize != 0 && upperSeq > fragSize {
        fragSize := upperSeq;
      }
      NewBlock(f.offset, f.data);
    }

    method NewBlock(start: nat, data: seq<Byte>)
      requires Valid()
      modifies this`blockList, this`fragSize, this`reassembledPkt
      ensures Valid()
      ensures data == [] ==> Value() == old(Value()) && reassembledPkt == old(reassembledPkt)
      ensures data != [] ==>
                var bs := Inserted(old(blockList), start, data);
                && blockList == bs && bs != []
                && var d := Decide(bs, old(fragSize));
                   if d.Some? then fragSize == d.value && Full(bs, d.value) &&
                       reassembledPkt == Headed(protoHdr, Assembled(bs, d.value), nextProto)
                   else fragSize == old(fragSize) && reassembledPkt == old(reassembledPkt)
    {
      if data == [] {
        return;
      }
      InsertedKeeps(blockList, start, data, 0);
      if blockList == [] {
        blockList := [Block(start, data)];
      } else {
        AtOrBeforeHints(blockList, start);
        Insert(start, data, AtOrBefore(blockList, start));
      }
      BlockInserted();
    }

    /** Insert with a hint. */
    method Insert(start: nat, data: seq<Byte>, hint: nat)
      requires Hinted(blockList, hint, start) && data != [] && Ordered(blockList)
      modifies this`blockList
      ensures blockList == InsertedFrom(old(blockList), hint, start, data)
      decreases |data|
    {
      hide InsertedFrom, Spliced, Skip, Look, Merged;
      ghost var bs := blockList;
      InsertedFromCases(bs, hint, start, data, Skip(bs, hint, start));
      if start == blockList[|blockList| - 1].Upper() {
        blockList := blockList + [Block(start, data)];
        return;
      }
      var it := FirstNotBefore(start, hint);
      var b := blockList[it];
      if b.Upper() <= start {
        blockList := blockList + [Block(start, data)];
        return;
      }
      var upper := start + |data|;
      if upper <= b.start {
        blockList := Spliced(blockList, it, Block(start, data));
        return;
      }
      if start < b.start {
        PrefixInserted(bs, it, start, data, start);
        HintedNext(bs, it, start, data);
        blockList := Spliced(blockList, it, Block(start, data[..b.start - start]));
        it := it + 1;
      }
      if upper > b.Upper() {
        Insert(b.Upper(), data[b.Upper() - start..], it);
      }
    }

    /** The scan for the first block that does not come completely before `start`. */
    method FirstNotBefore(start: nat, hint: nat) returns (it: nat)
      requires hint < |blockList|
      ensures it == Skip(blockList, hint, start)
    {
      it := hint;
      while it + 1 < |blockList| && blockList[it].Upper() <= start
        invariant hint <= it < |blockList|
        invariant Skip(blockList, hint, start) == Skip(blockList, it, start)
      {
        it := it + 1;
      }
    }

    /** Emit a packet if everything below the known size has arrived. */
    method BlockInserted()
      requires Valid() && blockList != []
      modifies this`fragSize, this`reassembledPkt
      ensures var d := Decide(blockList, old(fragSize));
              if d.Some? then fragSize == d.value && Full(blockList, d.value)
                              && reassembledPkt == Headed(protoHdr, Assembled(blockList, d.value), nextProto)
              else fragSize == old(fragSize) && reassembledPkt == old(reassembledPkt)
    {
      hide Look, Assembled, Reach;
      DecideExact(blockList, fragSize);
      if blockList[0].start > 0 || fragSize == 0 {
        return;
      }
      var it := LastContiguous();
      var last := blockList[|blockList| - 1];
      if it + 1 < |blockList| {
        if blockList[it].Upper() >= fragSize {
          fragSize := blockList[it].Upper();
        } else {
          return;
        }
      } else if last.Upper() > fragSize {
        fragSize := last.Upper();
      } else if last.Upper() < fragSize {
        return;
      }
      var pkt := BuildPacket(it);
      assert Version(pkt) == Version(protoHdr);
      match Version(pkt) {
        case 4 =>
          reassembledPkt := Some(WithShort(pkt, 2, |pkt|));
        case 6 =>
          var chained := InitChain(WithShort(pkt, 4, |pkt| - 40), nextProto % 256);
          reassembledPkt := Some(chained);
        case _ =>
          reassembledPkt := None;
      }
    }

    /** The walk along the headers that names what follows in place of the fragment header. */
    method InitChain(packet: seq<Byte>, next: Byte) returns (pkt: seq<Byte>)
      requires |packet| >= 40
      ensures pkt == Chained(packet, 0, IPPROTO_IPV6, next)
    {
      hide HeaderLength, NextType, IsExtension;
      pkt := packet;
      var at: nat, t: nat := 0, IPPROTO_IPV6;
      FirstHeader(packet);
      while at + 2 <= |pkt|
        invariant |pkt| == |packet| && (HeaderAt(pkt, at, t) || at + 2 > |pkt|)
        invariant Chained(pkt, at, t, next) == Chained(packet, 0, IPPROTO_IPV6, next)
        decreases |pkt| - at
      {
        var length, found := HeaderLength(pkt, at, t), NextType(pkt, at, t);
        if at + length > |pkt| {
          return;
        }
        ghost var was := pkt;
        if found == IPPROTO_FRAGMENT {
          FieldInside(pkt, at, t);
          pkt := pkt[NextField(at, t) := next];
          found := next;
        }
        if IsLast(t) || !IsExtension(found) {
          return;
        }
        at, t := at + length, found;
        NotFirst(t);
      }
    }

    method LastContiguous() returns (it: nat)
      requires blockList != []
      ensures it == Reach(blockList, 0)
    {
      it := 0;
      while it + 1 < |blockList|
        invariant 0 <= it < |blockList|
        invariant Reach(blockList, 0) == Reach(blockList, it)
      {
        if blockList[it].Upper() != blockList[it + 1].start {
          break;
        }
        it := it + 1;
      }
    }

    /** Copy header and blocks into a buffer of the final size, up to the first hole. `reach` is the
        block that ends the packet: every copy stays inside the buffer. */
    method BuildPacket(ghost reach: nat) returns (pkt: seq<Byte>)
      requires Ordered(blockList) && blockList != [] && blockList[0].start == 0
      requires reach == Reach(blockList, 0) && fragSize == blockList[reach].Upper() && Full(blockList, fragSize)
      ensures pkt == protoHdr + Assembled(blockList, fragSize)
    {
      hide Look, Reach, Assembled;
      var h := |protoHdr|;
      var n := h + fragSize;
      var buf := new Byte[n](i requires 0 <= i => if i < h then protoHdr[i] else 0);
      assert buf[..h] == protoHdr;
      var i := 0;
      while i < |blockList|
        invariant 0 <= i <= reach + 1 && buf.Length == n
        invariant buf[..h] == protoHdr
        invariant i > 0 ==>
                  blockList[i - 1].Upper() <= fragSize && Copied(buf[h..], blockList, blockList[i - 1].Upper())
      {
        var b := blockList[i];
        if i > 0 {
          var prev := blockList[i - 1];
          if prev.Upper() < b.start {
            break;
          }
        }
        InReach(blockList, i, reach);
        assert b.Upper() <= fragSize;  // so "bad fragment reassembly" cannot happen
        CopyBlock(buf, h, i);
        i := i + 1;
      }
      AllCopied(blockList, i, reach);
      pkt := buf[..];
      CopiedAll(buf[h..], blockList, fragSize);
      assert pkt == buf[..h] + buf[h..];
    }

    /** memcpy of block i. */
    method CopyBlock(buf: array<Byte>, h: nat, i: nat)
      requires Ordered(blockList) && i < |blockList| && h + blockList[i].Upper() <= buf.Length
      requires i == 0 ==> blockList[i].start == 0
      requires i > 0 ==>
               blockList[i - 1].Upper() == blockList[i].start && Copied(buf[h..], blockList, blockList[i - 1].Upper())
      modifies buf
      ensures buf[..h] == old(buf[..h]) && Copied(buf[h..], blockList, blockList[i].Upper())
    {
      hide Look;
      var b := blockList[i];
      forall j | 0 <= j < |b.data| {
        buf[h + b.start + j] := b.data[j];
      }
      forall x: nat | x < b.Upper() ensures Look(blockList, x) == Some(buf[h..][x]) {
        if b.start <= x {
          LookAt(blockList, i, x);
          assert buf[h + b.start + (x - b.start)] == b.data[x - b.start];
        } else {
          assert old(buf[h..])[x] == buf[h..][x];
        }
      }
    }
  }

  lemma FirstHeader(pkt: seq<Byte>)
    requires |pkt| >= 40
    ensures HeaderAt(pkt, 0, IPPROTO_IPV6)
  {
  }

  lemma FieldInside(pkt: seq<Byte>, at: nat, t: nat)
    requires HeaderAt(pkt, at, t)
    ensures NextField(at, t) < |pkt|
  {
  }

  lemma NotFirst(t: nat)
    requires IsExtension(t)
    ensures t != IPPROTO_IPV6
  {
  }

  /** The first n bytes of a buffer are those of the blocks. */
  ghost predicate Copied(bytes: seq<Byte>, bs: seq<Block>, n: nat) {
    n <= |bytes| && forall x: nat :: x < n ==> Look(bs, x) == Some(bytes[x])
  }

  lemma CopiedAll(bytes: seq<Byte>, bs: seq<Block>, n: nat)
    requires |bytes| == n && Copied(bytes, bs, n) && Full(bs, n)
    ensures bytes == Assembled(bs, n)
  {
  }

  /** A block that directly follows block i - 1 is within reach. */
  lemma InReach(bs: seq<Block>, i: nat, reach: nat)
    requires Ordered(bs) && bs != [] && reach == Reach(bs, 0) && i <= reach + 1 && i < |bs|
    requires i > 0 ==> bs[i - 1].Upper() >= bs[i].start
    ensures i <= reach && bs[i].Upper() <= bs[reach].Upper() && (i > 0 ==> bs[i - 1].Upper() == bs[i].start)
  {
    assert reach + 1 < |bs| ==> bs[reach].Upper() < bs[reach + 1].start;
    assert i < reach ==> bs[i].Upper() <= bs[reach].start;
  }

  lemma AllCopied(bs: seq<Block>, i: nat, reach: nat)
    requires Ordered(bs) && bs != [] && reach == Reach(bs, 0) && i <= reach + 1
    requires i == |bs| || (0 < i < |bs| && bs[i - 1].Upper() < bs[i].start)
    ensures i == reach + 1
  {
  }
}
