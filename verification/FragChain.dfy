/** The unfragmentable part of an IPv6 packet, built from its headers as in section 4 of RFC 8200 and section 2 of
    RFC 4302: where its chain of headers names the fragment header. */
module FragChain {
  import opened Options
  import opened Octet
  import opened FragReassemblers

  /** An extension header that others can follow: its type, its length field, and what comes after the two. */
  datatype Extension = Extension(kind: nat, len: Byte, rest: seq<Byte>)

  /** Hop-by-hop options (0), routing (43) and destination options (60) count units of eight bytes after the first;
      an authentication header (51) counts units of four after the second. */
  predicate WellSized(x: Extension) {
    || (x.kind in [0, 43, 60] && 2 + |x.rest| == 8 * (x.len as int + 1))
    || (x.kind == 51 && 2 + |x.rest| == 4 * (x.len as int + 2))
  }

  ghost predicate AllSized(xs: seq<Extension>) { forall i :: 0 <= i < |xs| ==> WellSized(xs[i]) }

  /** The type of the first header of a list, after which comes the fragment header. */
  function FirstKind(xs: seq<Extension>): nat { if xs == [] then 44 else xs[0].kind }

  /** The headers in sequence, each naming the next. */
  function Sequence(xs: seq<Extension>): seq<Byte>
    requires AllSized(xs)
  {
    if xs == [] then []
    else
      assert AllSized(xs[1..]);
      [FirstKind(xs[1..]), xs[0].len] + xs[0].rest + Sequence(xs[1..])
  }

  /** Where the last header, if any, begins. */
  function LastAt(xs: seq<Extension>): nat {
    if |xs| <= 1 then 0 else 2 + |xs[0].rest| + LastAt(xs[1..])
  }

  lemma {:induction false} SequenceField(before: seq<Byte>, xs: seq<Extension>)
    requires AllSized(xs) && xs != []
    ensures FragmentField(before + Sequence(xs), |before|, FirstKind(xs)) == Some(|before| + LastAt(xs))
    decreases |xs|
  {
    hide HeaderAt, HeaderLength, NextType, NextField, IsExtension, IsLast, FragmentField, Sequence, AllSized, WellSized;
    var x, more := xs[0], xs[1..];
    SizedParts(xs);
    var own := [FirstKind(more), x.len] + x.rest;
    var hdr, at := before + Sequence(xs), |before|;
    SequenceSplits(before, xs, own);
    OwnHeader(hdr, at, x);
    FieldTurn(hdr, at, x.kind);
    if more == [] {
      NoHeaders();
    } else {
      SizedParts(more);
      KindIs(more[0]);
      SequenceField(before + own, more);
    }
  }

  lemma SizedParts(xs: seq<Extension>)
    requires AllSized(xs) && xs != []
    ensures WellSized(xs[0]) && AllSized(xs[1..]) && FirstKind(xs[1..]) < 256
  {
    assert |xs| > 1 ==> WellSized(xs[1]);
  }

  lemma SequenceSplits(before: seq<Byte>, xs: seq<Extension>, own: seq<Byte>)
    requires AllSized(xs) && xs != [] && AllSized(xs[1..]) && FirstKind(xs[1..]) < 256
    requires own == [FirstKind(xs[1..]), xs[0].len] + xs[0].rest
    ensures before + Sequence(xs) == (before + own) + Sequence(xs[1..])
    ensures |before + Sequence(xs)| >= |before| + 2
    ensures (before + Sequence(xs))[|before|] == FirstKind(xs[1..])
    ensures (before + Sequence(xs))[|before| + 1] == xs[0].len
  {
    assert Sequence(xs) == own + Sequence(xs[1..]);
  }

  /** One header of the walk. */
  lemma FieldTurn(hdr: seq<Byte>, at: nat, t: nat)
    requires HeaderAt(hdr, at, t) && !IsLast(t) && at + HeaderLength(hdr, at, t) <= |hdr|
    ensures NextType(hdr, at, t) == 44 && at + HeaderLength(hdr, at, t) == |hdr| ==>
              FragmentField(hdr, at, t) == Some(NextField(at, t))
    ensures NextType(hdr, at, t) != 44 && IsExtension(NextType(hdr, at, t)) ==>
              FragmentField(hdr, at, t) == FragmentField(hdr, at + HeaderLength(hdr, at, t), NextType(hdr, at, t))
  {
  }

  lemma KindIs(x: Extension)
    requires WellSized(x)
    ensures IsExtension(x.kind) && x.kind != 44
  {
  }

  lemma OwnHeader(hdr: seq<Byte>, at: nat, x: Extension)
    requires WellSized(x) && at + 2 + |x.rest| <= |hdr| && hdr[at + 1] == x.len
    ensures HeaderAt(hdr, at, x.kind) && !IsLast(x.kind) && IsExtension(x.kind)
    ensures HeaderLength(hdr, at, x.kind) == 2 + |x.rest| && NextField(at, x.kind) == at
    ensures NextType(hdr, at, x.kind) == hdr[at]
  {
  }

  /** A base header, extension headers, and the fragment header named by the last of them, or by the base header. */
  function Unfragmentable(base: seq<Byte>, xs: seq<Extension>): seq<Byte>
    requires |base| == 40 && AllSized(xs) && FirstKind(xs) < 256
  {
    base[6 := FirstKind(xs)] + Sequence(xs)
  }

  lemma BaseHeader(hdr: seq<Byte>)
    requires |hdr| >= 40
    ensures HeaderAt(hdr, 0, IPPROTO_IPV6) && !IsLast(IPPROTO_IPV6) && HeaderLength(hdr, 0, IPPROTO_IPV6) == 40
    ensures NextField(0, IPPROTO_IPV6) == 6 && NextType(hdr, 0, IPPROTO_IPV6) == hdr[6]
  {
  }

  lemma NoHeaders()
    ensures AllSized([]) && Sequence([]) == []
  {
  }

  /** The field that names the fragment header is found in every such header. */
  lemma FieldFound(base: seq<Byte>, xs: seq<Extension>)
    requires |base| == 40 && AllSized(xs)
    ensures FirstKind(xs) < 256
    ensures FragmentField(Unfragmentable(base, xs), 0, IPPROTO_IPV6) == Some(if xs == [] then 6 else 40 + LastAt(xs))
  {
    hide HeaderAt, HeaderLength, NextType, NextField, IsExtension, IsLast, FragmentField, Sequence;
    assert xs != [] ==> WellSized(xs[0]);
    var first := base[6 := FirstKind(xs)];
    var hdr := Unfragmentable(base, xs);
    assert hdr[6] == first[6] == FirstKind(xs);
    BaseHeader(hdr);
    FieldTurn(hdr, 0, IPPROTO_IPV6);
    if xs == [] {
      NoHeaders();
    } else {
      KindIs(xs[0]);
      SequenceField(first, xs);
    }
  }
}
