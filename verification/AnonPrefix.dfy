/** The keyed-hash prefix scheme (Xu et al., IMW 2001) with its memo. The keyed hash is a
    parameter: any function of the round number and the padded prefix. */
module AnonPrefix {
  import opened AnonBits

  type KeyedHash = (nat, nat) -> nat

  /** x_0 ... x_{i-1} 1 0 ... 0 for the first i bits p. */
  function Pad(p: nat, i: nat): nat
    requires i < 32
  {
    Or(Shl(p, 32 - i), Shl(1, 31 - i))
  }

  /** The bit that is XORed into bit i + 1, from the first i bits of the input. */
  function Round(hash: KeyedHash, p: nat, i: nat): (f: nat)
    requires i < 32
    ensures f < 2
  {
    hash(i + 1, Pad(p, i)) % 2
  }

  function Scheme(hash: KeyedHash, x: Addr, n: nat): nat
    requires n <= 32
  {
    if n == 0 then x else Xor(Scheme(hash, x, n - 1), Shl(Round(hash, Top(x, n - 1), n - 1), 32 - n))
  }

  lemma {:induction false} SchemeFits(hash: KeyedHash, x: Addr, n: nat)
    requires n <= 32
    ensures Scheme(hash, x, n) < 0x1_0000_0000
  {
    if n > 0 {
      SchemeFits(hash, x, n - 1);
      var f := Round(hash, Top(x, n - 1), n - 1);
      BitShifted(f, n, 0);
      FitsAddr(Shl(f, 32 - n));
      XorBound(Scheme(hash, x, n - 1), Shl(f, 32 - n));
    }
  }

  /** A single bit at position n, seen from the first j bits. */
  lemma BitShifted(f: nat, n: nat, j: nat)
    requires f < 2 && 1 <= n <= 32 && j <= 32
    ensures j < n ==> Top(Shl(f, 32 - n), j) == 0
    ensures j == n ==> Top(Shl(f, 32 - n), j) == f
    ensures j > n ==> Top(Shl(f, 32 - n), j) % 2 == 0
  {
    var v := Shl(f, 32 - n);
    ShlShr(f, 32 - n);
    if j < n {
      TopTop(v, n, j);
      ShrShr(f, 1, n - j - 1);
      ShrZero(n - j - 1);
    } else if j > n {
      ShlShl(f, j - n, 32 - j);
      ShlShr(Shl(f, j - n), 32 - j);
      ShlShl(f, j - n - 1, 1);
    }
  }

  lemma XorLast(x: nat, y: nat)
    ensures Xor(x, y) % 2 == (x % 2 + y % 2) % 2
  {
    if x != 0 || y != 0 {
      LastDigit(Xor(x / 2, y / 2), if x % 2 == y % 2 then 0 else 1);
    }
  }

  lemma LastDigit(p: nat, b: nat)
    requires b < 2
    ensures (2 * p + b) % 2 == b
  {
  }

  /** After n rounds the first n bits are flipped as the hash of the preceding input bits says and
      the others are still those of the input. */
  lemma {:induction false} SchemeBits(hash: KeyedHash, x: Addr, n: nat, j: nat)
    requires n <= 32 && 1 <= j <= 32
    ensures Bit(Scheme(hash, x, n), j) ==
            if j <= n then (Bit(x, j) + Round(hash, Top(x, j - 1), j - 1)) % 2 else Bit(x, j)
  {
    hide Shr, Shl, Xor, Round;
    if n > 0 {
      SchemeBits(hash, x, n - 1, j);
      var f := Round(hash, Top(x, n - 1), n - 1);
      var before := Scheme(hash, x, n - 1);
      XorShr(before, Shl(f, 32 - n), 32 - j);
      XorLast(Top(before, j), Top(Shl(f, 32 - n), j));
      BitShifted(f, n, j);
    }
  }

  function Image(hash: KeyedHash, x: Addr): Addr {
    SchemeFits(hash, x, 32);
    Scheme(hash, x, 32)
  }

  /** What is hashed for bit j: the bits of x before it, a one, and zeros. */
  ghost predicate Padded(x: Addr, j: nat, q: Addr)
    requires 1 <= j <= 32
  {
    Top(q, j - 1) == Top(x, j - 1) && Bit(q, j) == 1 && forall k :: j < k <= 32 ==> Bit(q, k) == 0
  }

  /** Each bit of the output is that of the input, flipped as the last bit of the hash of what precedes it
      says. */
  ghost predicate Scrambled(hash: KeyedHash, x: Addr, out: nat) {
    forall j :: 1 <= j <= 32 ==> ScrambledAt(hash, x, out, j)
  }

  ghost predicate ScrambledAt(hash: KeyedHash, x: Addr, out: nat, j: nat)
    requires 1 <= j <= 32
  {
    exists q: Addr :: Padded(x, j, q) && Bit(out, j) == (Bit(x, j) + hash(j, q) % 2) % 2
  }

  lemma PadIsPadded(x: Addr, j: nat)
    requires 1 <= j <= 32
    ensures Pad(Top(x, j - 1), j - 1) < 0x1_0000_0000 && Padded(x, j, Pad(Top(x, j - 1), j - 1))
  {
    hide Shr, Shl, Or, And, PrefixMask;
    var prefix, one := Shl(Top(x, j - 1), 33 - j), Shl(1, 32 - j);
    MaskPrefix(x, j - 1);
    PadFits(j);
    XorBound(prefix, one);
    BitShifted(1, j, j - 1);
    TopOr(prefix, one, j - 1);
    ShlShr(1, 32 - j);
    hide Top;
    forall k | j <= k <= 32 ensures Bit(Or(prefix, one), k) == if k == j then 1 else 0 {
      BitOf(prefix, one, k);
      BitOfShl(Top(x, j - 1), 33 - j, k);
      if k > j {
        BitOfShl(1, 32 - j, k);
      } else {
        BitShifted(1, j, j);
        OneBit(j);
      }
    }
  }

  lemma OneBit(j: nat)
    requires 1 <= j <= 32
    ensures Bit(Shl(1, 32 - j), j) == 1
  {
    ShlShr(1, 32 - j);
  }

  lemma PadFits(j: nat)
    requires 1 <= j <= 32
    ensures Shl(1, 32 - j) < 0x1_0000_0000
  {
    BitShifted(1, j, 0);
    FitsAddr(Shl(1, 32 - j));
  }

  /** There is one such word. */
  lemma PaddedOnce(x: Addr, j: nat, q: Addr, q': Addr)
    requires 1 <= j <= 32 && Padded(x, j, q) && Padded(x, j, q')
    ensures q == q'
  {
    AgreeNext(q, q', j);
    PaddedFrom(x, j, q, q', 32);
    TopEnds(q);
    TopEnds(q');
  }

  lemma {:induction false} PaddedFrom(x: Addr, j: nat, q: Addr, q': Addr, n: nat)
    requires 1 <= j <= n <= 32 && Padded(x, j, q) && Padded(x, j, q')
    ensures Top(q, n) == Top(q', n)
  {
    hide Shr, Top, Bit;
    AgreeNext(q, q', n);
    if n > j {
      PaddedFrom(x, j, q, q', n - 1);
    }
  }

  lemma ImageScrambled(hash: KeyedHash, x: Addr)
    ensures Scrambled(hash, x, Image(hash, x))
  {
    hide Scheme, Pad, Padded, Bit;
    forall j | 1 <= j <= 32 ensures ScrambledAt(hash, x, Image(hash, x), j) {
      SchemeBits(hash, x, 32, j);
      PadIsPadded(x, j);
      var q: Addr := Pad(Top(x, j - 1), j - 1);
      assert Padded(x, j, q) && Round(hash, Top(x, j - 1), j - 1) == hash(j, q) % 2;
    }
  }

  method Anonymize32(hash: KeyedHash, input: Addr) returns (output: nat)
    ensures output == Scheme(hash, input, 32) < 0x1_0000_0000
    ensures Scrambled(hash, input, output)
  {
    output := input;
    var i := 0;
    while i < 32
      invariant i <= 32 && output == Scheme(hash, input, i)
    {
      MaskPrefix(input, i);
      var padded := Or(And(input, PrefixMask(i)), Shl(1, 31 - i));
      var bitMask := Shl(hash(i + 1, padded) % 2, 31 - i);
      output := Xor(output, bitMask);
      i := i + 1;
    }
    SchemeFits(hash, input, 32);
    ImageScrambled(hash, input);
  }

  /** Two inputs agree on k bits exactly when their images do. */
  lemma {:induction false} AgreeIff(hash: KeyedHash, a: Addr, b: Addr, k: nat)
    requires k <= 32
    ensures Top(a, k) == Top(b, k) <==> Top(Image(hash, a), k) == Top(Image(hash, b), k)
  {
    if k == 0 {
      TopEnds(a);
      TopEnds(b);
      TopEnds(Image(hash, a));
      TopEnds(Image(hash, b));
    } else {
      AgreeIff(hash, a, b, k - 1);
      AgreeNext(a, b, k);
      AgreeNext(Image(hash, a), Image(hash, b), k);
      SchemeBits(hash, a, 32, k);
      SchemeBits(hash, b, 32, k);
    }
  }

  /** The scheme preserves common-prefix length exactly, for any keyed function; in particular
      different addresses have different images. */
  lemma PreservesLcp(hash: KeyedHash, a: Addr, b: Addr)
    ensures Lcp(Image(hash, a), Image(hash, b)) == Lcp(a, b)
    ensures a != b ==> Image(hash, a) != Image(hash, b)
  {
    var k, k' := Lcp(a, b), Lcp(Image(hash, a), Image(hash, b));
    LcpIs(a, b, 0);
    LcpIs(Image(hash, a), Image(hash, b), 0);
    AgreeIff(hash, a, b, k);
    AgreeIff(hash, a, b, k');
    LcpIs(a, b, k);
    LcpIs(a, b, k');
    LcpIs(Image(hash, a), Image(hash, b), k);
    LcpIs(Image(hash, a), Image(hash, b), k');
    if a != b {
      LcpIs(a, b, 32);
      TopEnds(a);
      TopEnds(b);
    }
  }

  // ---------------------------------------------------------------- every address is an image

  /** The first k bits of the address whose image is y. */
  function Inverse(hash: KeyedHash, y: Addr, k: nat): nat
    requires k <= 32
  {
    if k == 0 then 0
    else
      var p := Inverse(hash, y, k - 1);
      2 * p + (Bit(y, k) + Round(hash, p, k - 1)) % 2
  }

  lemma {:induction false} InverseTop(hash: KeyedHash, y: Addr, n: nat, k: nat)
    requires k <= n <= 32
    ensures Shr(Inverse(hash, y, n), n - k) == Inverse(hash, y, k)
    decreases n
  {
    if k < n {
      InverseTop(hash, y, n - 1, k);
      hide Shr, Bit, Round;
      ShrDigit(Inverse(hash, y, n - 1), (Bit(y, n) + Round(hash, Inverse(hash, y, n - 1), n - 1)) % 2, n - k);
    } else {
      hide Bit, Round, Inverse;
      assert n - k == 0;
    }
  }

  lemma ShrDigit(p: nat, b: nat, m: nat)
    requires b < 2 && m > 0
    ensures Shr(2 * p + b, m) == Shr(p, m - 1)
  {
    assert (2 * p + b) / 2 == p;
  }

  lemma InverseFits(hash: KeyedHash, y: Addr)
    ensures Inverse(hash, y, 32) < 0x1_0000_0000
  {
    InverseTop(hash, y, 32, 0);
    FitsAddr(Inverse(hash, y, 32));
  }

  lemma InverseBit(hash: KeyedHash, y: Addr, x: Addr, k: nat)
    requires 1 <= k <= 32 && x == Inverse(hash, y, 32)
    ensures Bit(x, k) == (Bit(y, k) + Round(hash, Top(x, k - 1), k - 1)) % 2
  {
    hide Shr, Round;
    InverseTop(hash, y, 32, k);
    InverseTop(hash, y, 32, k - 1);
    var p := Inverse(hash, y, k - 1);
    LastDigit(p, (Bit(y, k) + Round(hash, p, k - 1)) % 2);
  }

  lemma {:induction false} InverseAgrees(hash: KeyedHash, y: Addr, x: Addr, k: nat)
    requires k <= 32 && x == Inverse(hash, y, 32)
    ensures Top(Image(hash, x), k) == Top(y, k)
  {
    hide Scheme, Shr, Inverse, Round;
    if k == 0 {
      TopEnds(Image(hash, x));
      TopEnds(y);
    } else {
      InverseAgrees(hash, y, x, k - 1);
      AgreeNext(Image(hash, x), y, k);
      SchemeBits(hash, x, 32, k);
      InverseBit(hash, y, x, k);
    }
  }

  /** Every address is the image of one: with PreservesLcp, the scheme is a permutation. */
  lemma Onto(hash: KeyedHash, y: Addr)
    ensures Inverse(hash, y, 32) < 0x1_0000_0000 && Image(hash, Inverse(hash, y, 32)) == y
  {
    InverseFits(hash, y);
    var x: Addr := Inverse(hash, y, 32);
    InverseAgrees(hash, y, x, 32);
    TopEnds(y);
    TopEnds(Image(hash, x));
  }

  // ---------------------------------------------------------------- the memo

  /** AnonymizeIPAddr::Anonymize over a direct function. */
  class Memo {
    const hash: KeyedHash
    var mapping: map<Addr, Addr>

    ghost predicate Valid()
      reads this
    {
      forall a :: a in mapping ==> mapping[a] == Image(hash, a)
    }

    constructor (h: KeyedHash)
      ensures Valid() && hash == h
    {
      hash := h;
      mapping := map[];
    }

    /** The memo never changes an answer: it is always the direct function's. */
    method Anonymize(a: Addr) returns (out: Addr)
      requires Valid()
      modifies this
      ensures Valid() && out == Image(hash, a) && mapping == old(mapping)[a := out]
      ensures Scrambled(hash, a, out)
    {
      ImageScrambled(hash, a);
      if a in mapping {
        out := mapping[a];
        assert mapping == mapping[a := out];
      } else {
        out := Anonymize32(hash, a);
        mapping := mapping[a := out];
      }
    }
  }
}
