/** The byte buffer under a hash key: little-endian words, aligned writes and reservations. */
module HashBytes {
  import opened Octet

  // ---------------------------------------------------------------- words

  function Pow256(k: nat): (r: nat)
    ensures r > 0
  {
    if k == 0 then 1 else 256 * Pow256(k - 1)
  }

  /** The k low bytes of a number, least first. */
  function Word(n: nat, k: nat): (r: seq<Byte>)
    ensures |r| == k
  {
    if k == 0 then [] else [n % 256] + Word(n / 256, k - 1)
  }

  function Number(s: seq<Byte>): nat { if s == [] then 0 else s[0] + 256 * Number(s[1..]) }

  lemma {:induction false} WordRoundTrip(n: nat, k: nat)
    requires n < Pow256(k)
    ensures Number(Word(n, k)) == n
  {
    if k > 0 {
      assert n / 256 < Pow256(k - 1);
      WordRoundTrip(n / 256, k - 1);
      assert Word(n, k)[1..] == Word(n / 256, k - 1);
    }
  }

  const TWO31 := 0x8000_0000
  const TWO32 := 0x1_0000_0000
  const TWO63 := 0x8000_0000_0000_0000
  const TWO64 := 0x1_0000_0000_0000_0000

  lemma Word4(n: nat)
    requires n < TWO32
    ensures Number(Word(n, 4)) == n
  {
    assert Pow256(4) == TWO32 by {
      assert Pow256(1) == 256 && Pow256(2) == 0x1_0000 && Pow256(3) == 0x100_0000;
    }
    WordRoundTrip(n, 4);
  }

  lemma Word8(n: nat)
    requires n < TWO64
    ensures Number(Word(n, 8)) == n
  {
    assert Pow256(8) == TWO64 by {
      assert Pow256(1) == 256 && Pow256(2) == 0x1_0000 && Pow256(3) == 0x100_0000 && Pow256(4) == TWO32;
      assert Pow256(5) == 0x100_0000_0000 && Pow256(6) == 0x1_0000_0000_0000 && Pow256(7) == 0x100_0000_0000_0000;
    }
    WordRoundTrip(n, 8);
  }

  /** Two's complement in 64 bits. */
  function Unsigned(i: int): nat
    requires -TWO63 <= i < TWO63
  {
    if i < 0 then i + TWO64 else i
  }

  function Signed(u: nat): int { if u >= TWO63 then u - TWO64 else u }

  // ---------------------------------------------------------------- alignment

  /** An offset rounded up to a multiple of the alignment, a power of two or 0 for none. */
  function AlignUp(n: nat, a: nat): (r: nat)
    ensures r >= n && (a <= 1 ==> r == n)
  {
    if a == 0 || n == 0 || n % a == 0 then n else n - n % a + a
  }

  predicate Alignment(a: nat) { a == 0 || a == 1 || a == 4 || a == 8 }

  lemma AlignMonotone(w: nat, r: nat, a: nat)
    requires w <= r && Alignment(a)
    ensures AlignUp(w, a) <= AlignUp(r, a)
  {
    if a == 4 {
      AlignMonotone4(w, r);
    } else if a == 8 {
      AlignMonotone8(w, r);
    }
  }

  lemma AlignMonotone4(w: nat, r: nat)
    requires w <= r
    ensures AlignUp(w, 4) <= AlignUp(r, 4)
  {
  }

  lemma AlignMonotone8(w: nat, r: nat)
    requires w <= r
    ensures AlignUp(w, 8) <= AlignUp(r, 8)
  {
  }

  function Zeros(n: nat): (r: seq<Byte>)
    ensures |r| == n
  {
    seq(n, _ => 0)
  }

  function Padded(b: seq<Byte>, a: nat): (r: seq<Byte>)
    ensures b <= r && |r| == AlignUp(|b|, a)
  {
    b + Zeros(AlignUp(|b|, a) - |b|)
  }

  // ---------------------------------------------------------------- scripts

  /** One write, with what is reserved for it: the data and its alignment, the room and its alignment. */
  datatype Put = Put(data: seq<Byte>, align: nat, room: nat, roomAlign: nat)

  predicate PutOk(p: Put) {
    && Alignment(p.align) && Alignment(p.roomAlign) && |p.data| <= p.room
    && (p.roomAlign == p.align || p.align <= 1)
  }

  function Written(b: seq<Byte>, ops: seq<Put>): (r: seq<Byte>)
    ensures b <= r
    decreases |ops|
  {
    if ops == [] then b else Written(Padded(b, ops[0].align) + ops[0].data, ops[1..])
  }

  function Reserved(n: nat, ops: seq<Put>): (r: nat)
    ensures r >= n
    decreases |ops|
  {
    if ops == [] then n else Reserved(AlignUp(n, ops[0].roomAlign) + ops[0].room, ops[1..])
  }

  lemma {:induction false} WrittenJoin(b: seq<Byte>, x: seq<Put>, y: seq<Put>)
    ensures Written(b, x + y) == Written(Written(b, x), y)
    decreases |x|
  {
    if x == [] {
      assert x + y == y;
    } else {
      assert (x + y)[1..] == x[1..] + y;
      WrittenJoin(Padded(b, x[0].align) + x[0].data, x[1..], y);
    }
  }

  lemma {:induction false} ReservedJoin(n: nat, x: seq<Put>, y: seq<Put>)
    ensures Reserved(n, x + y) == Reserved(Reserved(n, x), y)
    decreases |x|
  {
    if x == [] {
      assert x + y == y;
    } else {
      assert (x + y)[1..] == x[1..] + y;
      ReservedJoin(AlignUp(n, x[0].roomAlign) + x[0].room, x[1..], y);
    }
  }

  lemma PutFits(b: seq<Byte>, n: nat, p: Put)
    requires |b| <= n && PutOk(p)
    ensures |Padded(b, p.align) + p.data| <= AlignUp(n, p.roomAlign) + p.room
  {
    AlignMonotone(|b|, n, p.align);
  }

  lemma {:induction false} Fits(b: seq<Byte>, n: nat, ops: seq<Put>)
    requires |b| <= n && forall i :: 0 <= i < |ops| ==> PutOk(ops[i])
    ensures |Written(b, ops)| <= Reserved(n, ops)
    decreases |ops|
  {
    if ops != [] {
      hide Padded, AlignUp, PutOk;
      var p := ops[0];
      PutFits(b, n, p);
      Fits(Padded(b, p.align) + p.data, AlignUp(n, p.roomAlign) + p.room, ops[1..]);
    }
  }

  /** At every step the running reservation is at least the write offset. */
  lemma StepFits(b: seq<Byte>, n: nat, ops: seq<Put>, k: nat)
    requires |b| <= n && k <= |ops| && forall i :: 0 <= i < |ops| ==> PutOk(ops[i])
    ensures |Written(b, ops[..k])| <= Reserved(n, ops[..k]) <= Reserved(n, ops)
  {
    hide Written, Reserved, PutOk;
    Fits(b, n, ops[..k]);
    ReservedJoin(n, ops[..k], ops[k..]);
    assert ops[..k] + ops[k..] == ops;
  }

  /** Where a write lands it can be read back. */
  lemma ReadsBack(b: seq<Byte>, p: Put, whole: seq<Byte>)
    requires Padded(b, p.align) + p.data <= whole
    ensures var at := AlignUp(|b|, p.align);
            at + |p.data| <= |whole| && whole[at..at + |p.data|] == p.data
  {
    var padded := Padded(b, p.align);
    var at := AlignUp(|b|, p.align);
    hide Padded, AlignUp;
    PrefixSlice(padded + p.data, whole, at);
    assert (padded + p.data)[at..] == p.data;
  }

  lemma PrefixSlice(x: seq<Byte>, y: seq<Byte>, at: nat)
    requires x <= y && at <= |x|
    ensures y[at..|x|] == x[at..]
  {
    assert y[..|x|] == x;
    assert y[..|x|][at..] == y[at..|x|];
  }
}
