/** Unsigned 32-bit words as numbers, with the bit operations the anonymisers use, and what they
    say about leading bits and common prefixes. */
module AnonBits {
  type Addr = x: nat | x < 0x1_0000_0000

  function Shr(v: nat, n: nat): nat
    decreases n
  {
    if n == 0 then v else Shr(v / 2, n - 1)
  }

  function Shl(v: nat, n: nat): nat
    decreases n
  {
    if n == 0 then v else Shl(2 * v, n - 1)
  }

  function Xor(a: nat, b: nat): nat {
    if a == 0 && b == 0 then 0 else 2 * Xor(a / 2, b / 2) + (if a % 2 == b % 2 then 0 else 1)
  }

  function Or(a: nat, b: nat): nat {
    if a == 0 && b == 0 then 0 else 2 * Or(a / 2, b / 2) + (if a % 2 == 0 && b % 2 == 0 then 0 else 1)
  }

  function And(a: nat, b: nat): nat {
    if a == 0 || b == 0 then 0 else 2 * And(a / 2, b / 2) + (if a % 2 == 1 && b % 2 == 1 then 1 else 0)
  }

  /** The first n bits of x, as a number. */
  function Top(x: nat, n: nat): nat
    requires n <= 32
  {
    Shr(x, 32 - n)
  }

  /** Position, from 1, of the first set bit of a nibble. */
  const BVALS: seq<nat> := [0, 4, 3, 3, 2, 2, 2, 2, 1, 1, 1, 1, 1, 1, 1, 1]

  /** Position, from 1, of the first set bit; 0 for 0. */
  function BiFfs(value: Addr): nat {
    if value == 0 then 0
    else
      var (v1, a1) := if value / 0x10000 == 0 then (value, 16) else (value / 0x10000, 0);
      var (v2, a2) := if v1 / 0x100 == 0 then (v1, a1 + 8) else (v1 / 0x100, a1);
      var (v3, a3) := if v2 / 0x10 == 0 then (v2, a2 + 4) else (v2 / 0x10, a2);
      a3 + BVALS[v3 % 16]
  }

  /** Length of the common prefix of two addresses. */
  function Lcp(a: Addr, b: Addr): nat {
    XorBound(a, b);
    if a == b then 32 else var s: nat := BiFfs(Xor(a, b)); if s == 0 then 0 else s - 1
  }

  // ---------------------------------------------------------------- shifts

  lemma {:induction false} ShrShr(v: nat, a: nat, b: nat)
    ensures Shr(Shr(v, a), b) == Shr(v, a + b)
    decreases a
  {
    if a > 0 {
      ShrShr(v / 2, a - 1, b);
    }
  }

  lemma {:induction false} ShlShl(v: nat, a: nat, b: nat)
    ensures Shl(Shl(v, a), b) == Shl(v, a + b)
    decreases a
  {
    if a > 0 {
      ShlShl(2 * v, a - 1, b);
    }
  }

  lemma {:induction false} ShlShr(v: nat, n: nat)
    ensures Shr(Shl(v, n), n) == v
    decreases n
  {
    if n > 0 {
      ShlShr(2 * v, n - 1);
      ShrShr(Shl(2 * v, n - 1), n - 1, 1);
    }
  }

  lemma {:induction false} XorShr(a: nat, b: nat, n: nat)
    ensures Shr(Xor(a, b), n) == Xor(Shr(a, n), Shr(b, n))
    decreases n
  {
    if n > 0 {
      XorShr(a / 2, b / 2, n - 1);
    }
  }

  lemma {:induction false} OrShr(a: nat, b: nat, n: nat)
    ensures Shr(Or(a, b), n) == Or(Shr(a, n), Shr(b, n))
    decreases n
  {
    if n > 0 {
      OrShr(a / 2, b / 2, n - 1);
    }
  }

  lemma {:induction false} AndShr(a: nat, b: nat, n: nat)
    ensures Shr(And(a, b), n) == And(Shr(a, n), Shr(b, n))
    decreases n
  {
    if n > 0 {
      AndShr(a / 2, b / 2, n - 1);
      if a == 0 || b == 0 {
        ShrZero(n - 1);
      }
    }
  }

  lemma {:induction false} ShrZero(n: nat)
    ensures Shr(0, n) == 0 && Shl(0, n) == 0
  {
    if n > 0 {
      ShrZero(n - 1);
    }
  }

  lemma {:induction false} XorZero(a: nat, b: nat)
    ensures Xor(a, b) == 0 <==> a == b
  {
    if a != 0 || b != 0 {
      XorZero(a / 2, b / 2);
    }
  }

  lemma {:induction false} XorSymmetric(a: nat, b: nat)
    ensures Xor(a, b) == Xor(b, a)
  {
    if a != 0 || b != 0 {
      XorSymmetric(a / 2, b / 2);
    }
  }

  lemma {:induction false} OrZero(a: nat)
    ensures Or(a, 0) == a && Or(0, a) == a
  {
    if a != 0 {
      OrZero(a / 2);
    }
  }

  /** A value of at most n bits. */
  predicate Fits(v: nat, n: nat) { Shr(v, n) == 0 }

  lemma FitsAddr(v: nat)
    ensures Fits(v, 32) <==> v < 0x1_0000_0000
  {
    ShrBy16(v);
    ShrBy16(v / 0x10000);
    ShrShr(v, 16, 16);
  }

  lemma ShrBy4(v: nat)
    ensures Shr(v, 4) == v / 16
  {
    assert Shr(v, 4) == Shr(v / 2, 3) == Shr(v / 4, 2) == Shr(v / 8, 1);
  }

  lemma ShrBy16(v: nat)
    ensures Shr(v, 8) == v / 0x100 && Shr(v, 16) == v / 0x10000
  {
    ShrBy4(v);
    ShrBy4(v / 16);
    ShrShr(v, 4, 4);
    ShrBy4(v / 0x100);
    ShrShr(v, 8, 4);
    ShrBy4(v / 0x1000);
    ShrShr(v, 12, 4);
  }

  lemma XorBound(a: nat, b: nat)
    requires a < 0x1_0000_0000 && b < 0x1_0000_0000
    ensures Xor(a, b) < 0x1_0000_0000 && Or(a, b) < 0x1_0000_0000
  {
    FitsAddr(a);
    FitsAddr(b);
    XorShr(a, b, 32);
    OrShr(a, b, 32);
    FitsAddr(Xor(a, b));
    FitsAddr(Or(a, b));
  }

  // ---------------------------------------------------------------- first set bit

  /** The top set bit of a `width`-bit value is its r-th. */
  ghost predicate Leads(v: nat, width: nat, r: nat) {
    1 <= r <= width && Shr(v, width - r) == 1
  }

  lemma NibbleLeads(v: nat)
    requires 1 <= v <= 15
    ensures Leads(v, 4, BVALS[v])
  {
    assert Shr(v, 1) == v / 2;
    assert Shr(v, 2) == Shr(v / 2, 1) == v / 4;
    assert Shr(v, 3) == Shr(v / 2, 2) == Shr(v / 4, 1) == v / 8;
  }

  lemma HalfLeads(v: nat, width: nat, r: nat)
    requires Leads(Shr(v, width), width, r)
    ensures Leads(v, 2 * width, r)
  {
    ShrShr(v, width, width - r);
  }

  function Ffs8(v: nat): nat {
    if v / 0x10 == 0 then 4 + BVALS[v % 16] else BVALS[v / 0x10 % 16]
  }

  function Ffs16(v: nat): nat {
    if v / 0x100 == 0 then 8 + Ffs8(v) else Ffs8(v / 0x100)
  }

  lemma Ffs8Leads(v: nat)
    requires 1 <= v < 0x100
    ensures Leads(v, 8, Ffs8(v))
  {
    ShrBy4(v);
    if v / 0x10 == 0 {
      assert v % 16 == v;
      NibbleLeads(v);
    } else {
      assert v / 0x10 % 16 == v / 0x10;
      NibbleLeads(v / 0x10);
      HalfLeads(v, 4, BVALS[v / 0x10]);
    }
  }

  lemma Ffs16Leads(v: nat)
    requires 1 <= v < 0x10000
    ensures Leads(v, 16, Ffs16(v))
  {
    hide Ffs8;
    ShrBy16(v);
    if v / 0x100 == 0 {
      Ffs8Leads(v);
    } else {
      Ffs8Leads(v / 0x100);
      HalfLeads(v, 8, Ffs8(v / 0x100));
    }
  }

  lemma BiFfsSplits(v: Addr)
    requires v != 0
    ensures BiFfs(v) == if v / 0x10000 == 0 then 16 + Ffs16(v) else Ffs16(v / 0x10000)
  {
  }

  lemma BiFfsLeads(v: Addr)
    requires v != 0
    ensures Leads(v, 32, BiFfs(v))
  {
    hide Ffs16, BiFfs;
    BiFfsSplits(v);
    ShrBy16(v);
    if v / 0x10000 == 0 {
      Ffs16Leads(v);
    } else {
      Ffs16Leads(v / 0x10000);
      HalfLeads(v, 16, Ffs16(v / 0x10000));
    }
  }

  // ---------------------------------------------------------------- prefixes

  lemma TopTop(x: nat, n: nat, m: nat)
    requires m <= n <= 32
    ensures Top(x, m) == Shr(Top(x, n), n - m)
  {
    ShrShr(x, 32 - n, n - m);
  }

  lemma AgreeLess(a: nat, b: nat, n: nat, m: nat)
    requires m <= n <= 32 && Top(a, n) == Top(b, n)
    ensures Top(a, m) == Top(b, m)
  {
    TopTop(a, n, m);
    TopTop(b, n, m);
  }

  lemma TopEnds(a: Addr)
    ensures Top(a, 32) == a && Top(a, 0) == 0
  {
    FitsAddr(a);
  }

  /** The common prefix is exactly the range in which the leading bits agree. */
  lemma LcpIs(a: Addr, b: Addr, n: nat)
    requires n <= 32
    ensures Lcp(a, b) <= 32 && (Top(a, n) == Top(b, n) <==> n <= Lcp(a, b))
  {
    if a != b {
      XorBound(a, b);
      XorZero(a, b);
      var v: Addr := Xor(a, b);
      BiFfsLeads(v);
      var s := BiFfs(v);
      XorShr(a, b, 32 - n);
      XorZero(Top(a, n), Top(b, n));
      if n < s {
        TopTop(v, s, n);
        ShrShr(1, 1, s - n - 1);
        ShrZero(s - n - 1);
      } else {
        TopTop(v, n, s);
        ShrZero(n - s);
      }
    }
  }

  /** Leading bits that agree for exactly k bits. */
  lemma LcpExactly(a: Addr, b: Addr, k: nat)
    requires k < 32 && Top(a, k) == Top(b, k) && Top(a, k + 1) != Top(b, k + 1)
    ensures Lcp(a, b) == k && a != b && Xor(a, b) < 0x1_0000_0000 && BiFfs(Xor(a, b)) == k + 1
  {
    LcpIs(a, b, k);
    LcpIs(a, b, k + 1);
    XorBound(a, b);
    XorZero(a, b);
    BiFfsLeads(Xor(a, b));
  }

  // ---------------------------------------------------------------- one bit

  /** Bit s, counted from 1 at the top. */
  function Bit(a: nat, s: nat): (b: nat)
    requires 1 <= s <= 32
    ensures b < 2
  {
    Top(a, s) % 2
  }

  /** Agreement on s bits is agreement on s - 1 bits and on bit s. */
  lemma AgreeNext(a: nat, b: nat, s: nat)
    requires 1 <= s <= 32
    ensures Top(a, s) == Top(b, s) <==> Top(a, s - 1) == Top(b, s - 1) && Bit(a, s) == Bit(b, s)
  {
    ShrShr(a, 32 - s, 1);
    ShrShr(b, 32 - s, 1);
  }

  /** The test a & (1 << n). */
  lemma {:induction false} AndOneShifted(a: nat, n: nat)
    ensures And(a, Shl(1, n)) != 0 <==> Shr(a, n) % 2 == 1
    decreases n
  {
    if n > 0 {
      ShlShl(1, n - 1, 1);
      ShlShr(1, n - 1);
      ShlPositive(n - 1);
      AndOneShifted(a / 2, n - 1);
    }
  }

  lemma {:induction false} ShlPositive(n: nat)
    ensures Shl(1, n) > 0
    decreases n
  {
    if n > 0 {
      ShlShl(1, n - 1, 1);
      ShlPositive(n - 1);
    }
  }

  /** Agreement on n bits is agreement on each of them. */
  lemma AgreeBit(a: nat, b: nat, n: nat, j: nat)
    requires 1 <= j <= n <= 32 && Top(a, n) == Top(b, n)
    ensures Bit(a, j) == Bit(b, j)
  {
    AgreeLess(a, b, n, j);
  }

  lemma LastBits(a: nat, b: nat)
    ensures Or(a, b) % 2 == if a % 2 == 0 && b % 2 == 0 then 0 else 1
    ensures And(a, b) % 2 == if a % 2 == 1 && b % 2 == 1 then 1 else 0
  {
  }

  /** A bit of two words combined is that of theirs. */
  lemma BitOf(a: nat, b: nat, j: nat)
    requires 1 <= j <= 32
    ensures Bit(Or(a, b), j) == if Bit(a, j) == 0 && Bit(b, j) == 0 then 0 else 1
    ensures Bit(And(a, b), j) == if Bit(a, j) == 1 && Bit(b, j) == 1 then 1 else 0
  {
    OrShr(a, b, 32 - j);
    AndShr(a, b, 32 - j);
    LastBits(Top(a, j), Top(b, j));
  }

  /** A right shift moves bits down. */
  lemma BitOfShr(v: Addr, n: nat, j: nat)
    requires 1 <= j <= 32
    ensures Bit(Shr(v, n), j) == if j > n then Bit(v, j - n) else 0
  {
    ShrShr(v, n, 32 - j);
    if j <= n {
      FitsAddr(v);
      ShrShr(v, 32, n - j);
      ShrZero(n - j);
    }
  }

  /** A left shift leaves zeros behind. */
  lemma BitOfShl(v: nat, n: nat, j: nat)
    requires n <= 32 && 32 - n < j <= 32
    ensures Bit(Shl(v, n), j) == 0
  {
    var m := n - (32 - j);
    ShlShl(v, m, 32 - j);
    ShlShr(Shl(v, m), 32 - j);
    ShlShl(v, m - 1, 1);
  }

  // ---------------------------------------------------------------- masks

  /** k set bits. */
  function Ones(k: nat): nat { if k == 0 then 0 else 2 * Ones(k - 1) + 1 }

  lemma OnesAll()
    ensures Ones(32) == 0xFFFFFFFF
  {
    assert Ones(4) == 15;
    assert Ones(8) == 255;
    assert Ones(12) == 4095;
    assert Ones(16) == 0xFFFF;
    assert Ones(20) == 0xFFFFF;
    assert Ones(24) == 0xFFFFFF;
    assert Ones(28) == 0xFFFFFFF;
  }

  lemma {:induction false} OnesShr(k: nat, j: nat)
    requires j <= k
    ensures Shr(Ones(k), j) == Ones(k - j)
    decreases j
  {
    if j > 0 {
      OnesShr(k - 1, j - 1);
    }
  }

  lemma {:induction false} OnesMinus(n: nat, k: nat)
    ensures Ones(n + k) - Ones(k) == Shl(Ones(n), k)
  {
    if k > 0 {
      OnesMinus(n, k - 1);
      ShlShl(Ones(n), k - 1, 1);
    }
  }

  lemma {:induction false} AndOnes(x: nat, n: nat)
    requires Fits(x, n)
    ensures And(x, Ones(n)) == x && And(Ones(n), x) == x
    decreases n
  {
    if n > 0 {
      AndOnes(x / 2, n - 1);
    }
  }

  lemma TopFits(x: Addr, n: nat)
    requires n <= 32
    ensures Fits(Top(x, n), n)
  {
    FitsAddr(x);
    ShrShr(x, 32 - n, n);
  }

  lemma AndZero(x: nat)
    ensures And(x, 0) == 0 && And(0, x) == 0
  {
  }

  lemma {:induction false} AndShl(x: nat, y: nat, k: nat)
    ensures And(x, Shl(y, k)) == Shl(And(Shr(x, k), y), k)
    decreases k
  {
    if k > 0 {
      ShlShl(y, k - 1, 1);
      AndShl(x / 2, y, k - 1);
      ShlShl(And(Shr(x / 2, k - 1), y), k - 1, 1);
      if Shl(y, k) == 0 {
        ShlZero(y, k);
        AndZero(Shr(x, k));
        ShrZero(k);
      }
      if x == 0 {
        ShrZero(k);
      }
    }
  }

  lemma {:induction false} ShlZero(y: nat, k: nat)
    ensures Shl(y, k) == 0 <==> y == 0
    decreases k
  {
    if k > 0 {
      ShlZero(2 * y, k - 1);
    }
  }

  lemma BitOfOnes(k: nat, j: nat)
    requires k <= 32 && 1 <= j <= 32
    ensures Bit(Ones(k), j) == if j > 32 - k then 1 else 0
  {
    var m := 32 - j;
    if m <= k {
      OnesShr(k, m);
    } else {
      OnesShr(k, k);
      ShrShr(Ones(k), k, m - k);
      ShrZero(m - k);
    }
  }

  /** ~(0xFFFFFFFF >> n): the first n bits set. */
  function PrefixMask(n: nat): (m: nat)
    requires n <= 32
    ensures m == Shl(Ones(n), 32 - n) <= 0xFFFFFFFF
  {
    OnesAll();
    OnesShr(32, n);
    OnesMinus(n, 32 - n);
    0xFFFFFFFF - Shr(0xFFFFFFFF, n)
  }

  /** Masking with the first n bits keeps them and clears the rest. */
  lemma MaskPrefix(x: Addr, n: nat)
    requires n <= 32
    ensures And(x, PrefixMask(n)) == Shl(Top(x, n), 32 - n) < 0x1_0000_0000
    ensures Top(And(x, PrefixMask(n)), n) == Top(x, n)
  {
    AndShl(x, Ones(n), 32 - n);
    TopFits(x, n);
    AndOnes(Top(x, n), n);
    ShlShr(Top(x, n), 32 - n);
    AndAtMost(x, PrefixMask(n));
  }

  lemma MaskSuffix(x: nat, n: nat)
    requires n <= 32
    ensures Top(And(x, Shr(0xFFFFFFFF, n)), n) == 0 && And(x, Shr(0xFFFFFFFF, n)) < 0x1_0000_0000
  {
    OnesAll();
    OnesShr(32, n);
    AndShr(x, Ones(32 - n), 32 - n);
    OnesShr(32 - n, 32 - n);
    AndAtMost(x, Ones(32 - n));
    OnesMono(32 - n);
  }

  lemma {:induction false} OnesMono(k: nat)
    requires k <= 32
    ensures Ones(k) <= 0xFFFFFFFF
    decreases 32 - k
  {
    if k == 32 {
      OnesAll();
    } else {
      OnesMono(k + 1);
    }
  }

  lemma {:induction false} AndAtMost(a: nat, b: nat)
    ensures And(a, b) <= a && And(a, b) <= b
  {
    if a != 0 && b != 0 {
      AndAtMost(a / 2, b / 2);
    }
  }

  lemma TopOr(a: nat, b: nat, n: nat)
    requires n <= 32 && Top(b, n) == 0
    ensures Top(Or(a, b), n) == Top(a, n)
  {
    OrShr(a, b, 32 - n);
    OrZero(Top(a, n));
  }
}
