/** The A50 tree: which outputs it hands out, and that they preserve prefixes. */
module AnonTree {
  import opened AnonBits

  /** An inner node repeats the input and output of some leaf below it. */
  datatype Tree =
    | Leaf(input: Addr, output: Addr)
    | Fork(input: Addr, output: Addr, left: Tree, right: Tree)

  datatype Pair = Pair(input: Addr, output: Addr)

  // ---------------------------------------------------------------- operations

  /** Keep the bits before `swivel`, flip bit `swivel`, take the rest from the random word. */
  function MakeOutput(oldOutput: Addr, swivel: nat, random: Addr): (out: nat)
    requires 1 <= swivel <= 32
  {
    if swivel == 32 then Xor(oldOutput, 1)
    else Or(Shl(Xor(Shr(oldOutput, 32 - swivel), 1), 32 - swivel), Shr(And(random, 0x7FFFFFFF), swivel))
  }

  /** First bit, from 1, in which two addresses differ. */
  function Differ(a: Addr, b: Addr): (s: nat)
    ensures s <= 32
  {
    XorBound(a, b);
    if a == b then 0
    else
      XorZero(a, b);
      BiFfsLeads(Xor(a, b));
      BiFfs(Xor(a, b))
  }

  function Swivel(t: Tree): nat
    requires t.Fork?
  {
    Differ(t.left.input, t.right.input)
  }

  /** The output of a new leaf that parts from the node `t`. */
  function PeerOutput(t: Tree, a: Addr, random: Addr): Addr
    requires a != t.input
  {
    DifferBounds(a, t.input);
    MakeOutputFlips(t.output, Differ(a, t.input), random);
    MakeOutput(t.output, Differ(a, t.input), random)
  }

  /** make_peer: `t` and a new leaf for `a` become the two children of a new node. */
  function Peer(t: Tree, a: Addr, random: Addr): Tree
    requires a != t.input
  {
    var s := Differ(a, t.input);
    var leaf := Leaf(a, PeerOutput(t, a, random));
    if Shr(a, 32 - s) % 2 == 1 then Fork(leaf.input, leaf.output, t, leaf)
    else Fork(t.input, t.output, leaf, t)
  }

  lemma PeerIs(t: Tree, a: Addr, random: Addr)
    requires a != t.input
    ensures 1 <= Differ(a, t.input) <= 32 &&
            MakeOutput(t.output, Differ(a, t.input), random) == PeerOutput(t, a, random)
    ensures var leaf := Leaf(a, PeerOutput(t, a, random));
            Peer(t, a, random) == if Shr(a, 32 - Differ(a, t.input)) % 2 == 1 then
                Fork(leaf.input, leaf.output, t, leaf)
                                  else Fork(t.input, t.output, leaf, t)
  {
    hide Differ, MakeOutput, Shr;
    DifferBounds(a, t.input);
  }

  /** find_node below `t`: where the walk stops without finding `a`, a peer is made. */
  function Insert(t: Tree, a: Addr, random: Addr): Tree {
    if t.input == a then t
    else if t.Leaf? || Differ(a, t.input) < Swivel(t) then Peer(t, a, random)
    else if And(a, Shl(1, 32 - Swivel(t))) != 0 then t.(right := Insert(t.right, a, random))
    else t.(left := Insert(t.left, a, random))
  }

  /** The output of the node that find_node returns. */
  function Found(t: Tree, a: Addr, random: Addr): Addr {
    if t.input == a then t.output
    else if t.Leaf? || Differ(a, t.input) < Swivel(t) then PeerOutput(t, a, random)
    else if And(a, Shl(1, 32 - Swivel(t))) != 0 then Found(t.right, a, random)
    else Found(t.left, a, random)
  }

  // ---------------------------------------------------------------- bits

  lemma DifferBounds(a: Addr, b: Addr)
    requires a != b
    ensures 1 <= Differ(a, b) <= 32 && Lcp(a, b) == Differ(a, b) - 1
    ensures Top(a, Differ(a, b) - 1) == Top(b, Differ(a, b) - 1)
    ensures Bit(a, Differ(a, b)) != Bit(b, Differ(a, b))
  {
    XorBound(a, b);
    XorZero(a, b);
    BiFfsLeads(Xor(a, b));
    var s := Differ(a, b);
    LcpIs(a, b, s - 1);
    LcpIs(a, b, s);
    AgreeNext(a, b, s);
  }

  lemma {:induction false} XorWithZero(x: nat)
    ensures Xor(x, 0) == x
  {
    if x != 0 {
      XorWithZero(x / 2);
    }
  }

  lemma FlipLast(x: nat)
    ensures Xor(x, 1) / 2 == x / 2 && Xor(x, 1) % 2 != x % 2
  {
    XorWithZero(x / 2);
  }

  lemma MakeOutputTop(oldOutput: Addr, swivel: nat, random: Addr)
    requires 1 <= swivel <= 32
    ensures Top(MakeOutput(oldOutput, swivel, random), swivel) == Xor(Top(oldOutput, swivel), 1)
  {
    var n := 32 - swivel;
    if swivel < 32 {
      var known, rest := Shl(Xor(Shr(oldOutput, n), 1), n), Shr(And(random, 0x7FFFFFFF), swivel);
      OrShr(known, rest, n);
      ShlShr(Xor(Shr(oldOutput, n), 1), n);
      ShrShr(And(random, 0x7FFFFFFF), swivel, n);
      AndAtMost(random, 0x7FFFFFFF);
      FitsAddr(And(random, 0x7FFFFFFF));
      OrZero(Xor(Shr(oldOutput, n), 1));
    }
  }

  /** The new output agrees with the old one exactly up to the swivel, whatever the random word. */
  lemma MakeOutputFlips(oldOutput: Addr, swivel: nat, random: Addr)
    requires 1 <= swivel <= 32
    ensures var out := MakeOutput(oldOutput, swivel, random);
            && out < 0x1_0000_0000
            && Top(out, swivel - 1) == Top(oldOutput, swivel - 1)
            && Bit(out, swivel) != Bit(oldOutput, swivel)
  {
    var out := MakeOutput(oldOutput, swivel, random);
    MakeOutputTop(oldOutput, swivel, random);
    FlipLast(Top(oldOutput, swivel));
    ShrShr(out, 32 - swivel, 1);
    ShrShr(oldOutput, 32 - swivel, 1);
    FitsAddr(out);
    FitsAddr(oldOutput);
    ShrShr(out, 32 - swivel + 1, swivel - 1);
    ShrShr(oldOutput, 32 - swivel + 1, swivel - 1);
  }

  /** Behind the swivel comes a zero, and then the random word from its second bit on. */
  lemma MakeOutputTail(oldOutput: Addr, swivel: nat, random: Addr, j: nat)
    requires 1 <= swivel < j <= 32
    ensures Bit(MakeOutput(oldOutput, swivel, random), j) == if j == swivel + 1 then 0 else Bit(random, j - swivel)
  {
    hide Shr, Shl, And, Or, Xor, Bit;
    var known, rest := Shl(Xor(Shr(oldOutput, 32 - swivel), 1), 32 - swivel), Shr(And(random, 0x7FFFFFFF), swivel);
    BitOf(known, rest, j);
    BitOfShl(Xor(Shr(oldOutput, 32 - swivel), 1), 32 - swivel, j);
    AndAtMost(random, 0x7FFFFFFF);
    BitOfShr(And(random, 0x7FFFFFFF), swivel, j);
    BitOf(random, 0x7FFFFFFF, j - swivel);
    OnesLess();
    BitOfOnes(31, j - swivel);
  }

  lemma OnesLess()
    ensures Ones(31) == 0x7FFFFFFF
  {
    OnesAll();
    assert Ones(32) == 2 * Ones(31) + 1;
  }

  // ---------------------------------------------------------------- tree invariant

  ghost function Pairs(t: Tree): set<Pair> {
    match t
    case Leaf(i, o) => {Pair(i, o)}
    case Fork(_, _, l, r) => Pairs(l) + Pairs(r)
  }

  /** x and y part at bit s, on the input side (x with a 0) and on the output side. */
  ghost predicate Parted(x: Pair, y: Pair, s: nat) {
    && 1 <= s <= 32
    && Top(x.input, s - 1) == Top(y.input, s - 1) && Bit(x.input, s) == 0 && Bit(y.input, s) == 1
    && Top(x.output, s - 1) == Top(y.output, s - 1) && Bit(x.output, s) != Bit(y.output, s)
  }

  ghost predicate Splits(l: set<Pair>, r: set<Pair>, s: nat) {
    forall x, y :: x in l && y in r ==> Parted(x, y, s)
  }

  ghost predicate Inv(t: Tree) {
    t.Fork? ==>
      && Inv(t.left) && Inv(t.right)
      && Pair(t.input, t.output) in Pairs(t)
      && Splits(Pairs(t.left), Pairs(t.right), Swivel(t))
  }

  ghost predicate Preserving(ps: set<Pair>) {
    forall p, q :: p in ps && q in ps ==> Lcp(p.input, q.input) == Lcp(p.output, q.output)
  }

  lemma RootIn(t: Tree)
    requires Inv(t)
    ensures Pair(t.input, t.output) in Pairs(t)
  {
  }

  lemma PartedLcp(x: Pair, y: Pair, s: nat)
    requires Parted(x, y, s)
    ensures Lcp(x.input, y.input) == Lcp(x.output, y.output) == s - 1
    ensures Lcp(y.input, x.input) == Lcp(y.output, x.output) == s - 1
    ensures x.input != y.input && Differ(x.input, y.input) == s
  {
    AgreeNext(x.input, y.input, s);
    AgreeNext(x.output, y.output, s);
    LcpExactly(x.input, y.input, s - 1);
    LcpExactly(x.output, y.output, s - 1);
    LcpExactly(y.input, x.input, s - 1);
    LcpExactly(y.output, x.output, s - 1);
  }

  /** The tree hands out outputs whose common prefixes are those of the inputs. */
  lemma {:induction false} InvPreserves(t: Tree)
    requires Inv(t)
    ensures Preserving(Pairs(t))
  {
    if t.Fork? {
      InvPreserves(t.left);
      InvPreserves(t.right);
      forall p, q | p in Pairs(t) && q in Pairs(t) ensures Lcp(p.input, q.input) == Lcp(p.output, q.output) {
        if p in Pairs(t.left) && q in Pairs(t.right) {
          PartedLcp(p, q, Swivel(t));
        } else if p in Pairs(t.right) && q in Pairs(t.left) {
          PartedLcp(q, p, Swivel(t));
        }
      }
    }
  }

  /** All inputs below a node agree before its swivel, and so do all outputs. */
  lemma InnerAgree(t: Tree, p: Pair, q: Pair)
    requires Inv(t) && t.Fork? && p in Pairs(t) && q in Pairs(t)
    ensures 1 <= Swivel(t) <= 32
    ensures Top(p.input, Swivel(t) - 1) == Top(q.input, Swivel(t) - 1)
    ensures Top(p.output, Swivel(t) - 1) == Top(q.output, Swivel(t) - 1)
  {
    RootIn(t.left);
    RootIn(t.right);
    var x, y := Pair(t.left.input, t.left.output), Pair(t.right.input, t.right.output);
    assert Parted(x, y, Swivel(t));
    assert p in Pairs(t.left) ==> Parted(p, y, Swivel(t));
    assert q in Pairs(t.left) ==> Parted(q, y, Swivel(t));
    assert p in Pairs(t.right) ==> Parted(x, p, Swivel(t));
    assert q in Pairs(t.right) ==> Parted(x, q, Swivel(t));
  }

  /** Wherever a new leaf is hung, it parts from everything below the old node at the same bit. */
  lemma PeerParts(t: Tree, a: Addr, random: Addr, p: Pair)
    requires Inv(t) && a != t.input && p in Pairs(t)
    requires t.Fork? ==> Differ(a, t.input) < Swivel(t)
    ensures 1 <= Differ(a, t.input) <= 32
    ensures var newPair := Pair(a, PeerOutput(t, a, random));
            if Bit(a, Differ(a, t.input)) == 1 then Parted(p, newPair, Differ(a, t.input))
            else Parted(newPair, p, Differ(a, t.input))
  {
    var s := Differ(a, t.input);
    DifferBounds(a, t.input);
    MakeOutputFlips(t.output, s, random);
    var root := Pair(t.input, t.output);
    if t.Fork? {
      RootIn(t);
      InnerAgree(t, p, root);
      AgreeLess(p.input, t.input, Swivel(t) - 1, s);
      AgreeLess(p.output, t.output, Swivel(t) - 1, s);
    }
    AgreeNext(p.input, t.input, s);
    AgreeNext(p.output, t.output, s);
  }

  lemma SwivelIs(l: Tree, r: Tree, s: nat)
    requires Inv(l) && Inv(r) && Splits(Pairs(l), Pairs(r), s)
    ensures Differ(l.input, r.input) == s
  {
    RootIn(l);
    RootIn(r);
    PartedLcp(Pair(l.input, l.output), Pair(r.input, r.output), s);
  }

  lemma PeerKeeps(t: Tree, a: Addr, random: Addr)
    requires Inv(t) && a != t.input
    requires t.Fork? ==> Differ(a, t.input) < Swivel(t)
    ensures Inv(Peer(t, a, random))
    ensures Pairs(Peer(t, a, random)) == Pairs(t) + {Pair(a, PeerOutput(t, a, random))}
  {
    var s := Differ(a, t.input);
    RootIn(t);
    PeerParts(t, a, random, Pair(t.input, t.output));
    var leaf := Leaf(a, PeerOutput(t, a, random));
    forall p | p in Pairs(t)
      ensures if Bit(a, s) == 1 then Parted(p, Pair(a, leaf.output), s) else Parted(Pair(a, leaf.output), p, s)
    {
      PeerParts(t, a, random, p);
    }
    if Bit(a, s) == 1 {
      SwivelIs(t, leaf, s);
    } else {
      SwivelIs(leaf, t, s);
    }
  }

  /** find_node keeps the invariant, keeps every pair already handed out and adds only the pair it
      returns. */
  lemma {:induction false} InsertKeeps(t: Tree, a: Addr, random: Addr)
    requires Inv(t)
    ensures Inv(Insert(t, a, random))
    ensures Pairs(Insert(t, a, random)) == Pairs(t) + {Pair(a, Found(t, a, random))}
  {
    hide Shr, Differ, MakeOutput, Parted;
    if t.input == a {
      RootIn(t);
    } else if t.Leaf? {
      PeerKeeps(t, a, random);
    } else {
      RootIn(t);
      InnerAgree(t, Pair(t.input, t.output), Pair(t.input, t.output));
      if Differ(a, t.input) < Swivel(t) {
        PeerKeeps(t, a, random);
      } else {
        AndOneShifted(a, 32 - Swivel(t));
        if And(a, Shl(1, 32 - Swivel(t))) != 0 {
          InsertKeeps(t.right, a, random);
          ForkKeeps(t, a, random, t.left, Insert(t.right, a, random));
        } else {
          InsertKeeps(t.left, a, random);
          ForkKeeps(t, a, random, Insert(t.left, a, random), t.right);
        }
      }
    }
  }

  /** Replacing one child by a tree with one more pair, on the side that bit `swivel` of `a` says. */
  lemma ForkKeeps(t: Tree, a: Addr, random: Addr, l: Tree, r: Tree)
    requires Inv(t) && t.Fork? && a != t.input && Differ(a, t.input) >= Swivel(t) && 1 <= Swivel(t) <= 32
    requires Inv(l) && Inv(r)
    requires if Bit(a, Swivel(t)) == 1 then
             l == t.left && Pairs(r) == Pairs(t.right) + {Pair(a, Found(t.right, a, random))}
             else r == t.right && Pairs(l) == Pairs(t.left) + {Pair(a, Found(t.left, a, random))}
    ensures Inv(Fork(t.input, t.output, l, r))
  {
    hide Shr, Top, Bit, Differ, Found, Lcp;
    var s := Swivel(t);
    DifferBounds(a, t.input);
    AgreeLess(a, t.input, Differ(a, t.input) - 1, s - 1);
    var right := Bit(a, s) == 1;
    var newPair := Pair(a, Found(if right then t.right else t.left, a, random));
    RootIn(t.left);
    RootIn(t.right);
    assert Parted(Pair(t.left.input, t.left.output), Pair(t.right.input, t.right.output), s);
    var near := if right then Pair(t.right.input, t.right.output) else Pair(t.left.input, t.left.output);
    RootIn(t);
    InnerAgree(t, near, Pair(t.input, t.output));
    InvPreserves(if right then r else l);
    NewPairParts(s, near, newPair);
    forall x, y | x in Pairs(l) && y in Pairs(r) ensures Parted(x, y, s) {
      if right && y == newPair {
        assert Parted(x, near, s);
      } else if !right && x == newPair {
        assert Parted(near, y, s);
      }
    }
    SwivelIs(l, r, s);
  }

  /** A new pair on the same side as `near` and prefix-consistent with it looks the same to the
      other side. */
  lemma NewPairParts(s: nat, near: Pair, newPair: Pair)
    requires 1 <= s <= 32 && Top(near.input, s - 1) == Top(newPair.input, s - 1)
    requires Bit(near.input, s) == Bit(newPair.input, s)
    requires Lcp(near.input, newPair.input) == Lcp(near.output, newPair.output)
    ensures Top(near.output, s - 1) == Top(newPair.output, s - 1) && Bit(near.output, s) == Bit(newPair.output, s)
  {
    AgreeNext(near.input, newPair.input, s);
    LcpIs(near.input, newPair.input, s);
    LcpIs(near.output, newPair.output, s);
    AgreeNext(near.output, newPair.output, s);
  }

  // ---------------------------------------------------------------- a new output

  /** No input has a longer prefix in common with `a`. */
  ghost predicate Nearest(ps: set<Pair>, a: Addr, p: Pair) {
    p in ps && forall q :: q in ps ==> Lcp(a, q.input) <= Lcp(a, p.input)
  }

  lemma {:induction false} NearestExists(ps: set<Pair>, a: Addr)
    requires ps != {}
    ensures exists p :: Nearest(ps, a, p)
    decreases |ps|
  {
    hide Lcp;
    var x :| x in ps;
    var rest := ps - {x};
    if rest == {} {
      assert ps == {x};
      assert Nearest(ps, a, x);
    } else {
      NearestExists(rest, a);
      var y :| Nearest(rest, a, y);
      assert Nearest(ps, a, if Lcp(a, x.input) <= Lcp(a, y.input) then y else x);
    }
  }

  /** An output for `a` that parts from that of p where `a` parts from p's input; behind that bit, a zero
      and then the random word from its second bit on. */
  ghost predicate Branches(p: Pair, a: Addr, random: Addr, out: Addr) {
    var s := Lcp(a, p.input) + 1;
    && s <= 32
    && (forall j :: 1 <= j < s ==> Bit(out, j) == Bit(p.output, j))
    && Bit(out, s) != Bit(p.output, s)
    && (forall j :: s < j <= 32 ==> Bit(out, j) == if j == s + 1 then 0 else Bit(random, j - s))
  }

  /** Where a walk goes on, it goes to the side of the nearest inputs. */
  lemma NearestBelow(t: Tree, a: Addr, p: Pair)
    requires Inv(t) && t.Fork? && a != t.input && Differ(a, t.input) >= Swivel(t) && Nearest(Pairs(t), a, p)
    ensures 1 <= Swivel(t) <= 32
    ensures Nearest(Pairs(if Bit(a, Swivel(t)) == 1 then t.right else t.left), a, p)
  {
    hide Shr, Top, Bit, Differ, Lcp;
    var s := Swivel(t);
    RootIn(t);
    RootIn(t.left);
    RootIn(t.right);
    var root := Pair(t.input, t.output);
    InnerAgree(t, root, root);
    DifferBounds(a, t.input);
    AgreeLess(a, t.input, Differ(a, t.input) - 1, s - 1);
    var x, y := Pair(t.left.input, t.left.output), Pair(t.right.input, t.right.output);
    assert Parted(x, y, s);
    forall q | q in Pairs(t)
      ensures if (q in Pairs(t.right)) == (Bit(a, s) == 1) then Lcp(a, q.input) >= s else Lcp(a, q.input) == s - 1
    {
      InnerAgree(t, q, root);
      assert q in Pairs(t.left) ==> Parted(q, y, s);
      assert q in Pairs(t.right) ==> Parted(x, q, s);
      SideOf(a, q.input, s);
    }
  }

  lemma SideOf(a: Addr, b: Addr, s: nat)
    requires 1 <= s <= 32 && Top(a, s - 1) == Top(b, s - 1)
    ensures if Bit(a, s) == Bit(b, s) then Lcp(a, b) >= s else Lcp(a, b) == s - 1
  {
    hide Shr, Lcp, Bit;
    AgreeNext(a, b, s);
    LcpIs(a, b, s);
    LcpIs(a, b, s - 1);
  }

  /** What the walk answers for a new input has the random tail. */
  lemma {:induction false} FoundTail(t: Tree, a: Addr, random: Addr, p: Pair, j: nat)
    requires Inv(t) && Nearest(Pairs(t), a, p) && (forall q :: q in Pairs(t) ==> q.input != a)
    requires Lcp(a, p.input) + 1 < j <= 32
    ensures var s := Lcp(a, p.input) + 1;
            Bit(Found(t, a, random), j) == if j == s + 1 then 0 else Bit(random, j - s)
  {
    hide Shr, Shl, And, Bit, Differ, Lcp, MakeOutput, Parted, Top;
    RootIn(t);
    if t.Leaf? || Differ(a, t.input) < Swivel(t) {
      PeerParts(t, a, random, p);
      var s, newPair := Differ(a, t.input), Pair(a, PeerOutput(t, a, random));
      if Bit(a, s) == 1 {
        PartedLcp(p, newPair, s);
      } else {
        PartedLcp(newPair, p, s);
      }
      MakeOutputTail(t.output, s, random, j);
    } else {
      InnerAgree(t, p, p);
      AndOneShifted(a, 32 - Swivel(t));
      NearestBelow(t, a, p);
      BitIs(a, Swivel(t));
      FoundTail(if Bit(a, Swivel(t)) == 1 then t.right else t.left, a, random, p, j);
    }
  }

  lemma BitIs(a: nat, s: nat)
    requires 1 <= s <= 32
    ensures Bit(a, s) == Shr(a, 32 - s) % 2
  {
  }

  /** Words with a common prefix of just s - 1 bits. */
  lemma PartBits(x: Addr, y: Addr, s: nat)
    requires 1 <= s <= 32 && Lcp(x, y) == s - 1
    ensures (forall j :: 1 <= j < s ==> Bit(x, j) == Bit(y, j)) && Bit(x, s) != Bit(y, s)
  {
    hide Shr, Top, Bit, Lcp;
    LcpIs(x, y, s - 1);
    LcpIs(x, y, s);
    AgreeNext(x, y, s);
    forall j | 1 <= j < s ensures Bit(x, j) == Bit(y, j) {
      AgreeBit(x, y, s - 1, j);
    }
  }

  /** The output of a new input: it branches off from the output of any of the nearest inputs. */
  lemma FoundBranches(t: Tree, a: Addr, random: Addr, p: Pair)
    requires Inv(t) && Nearest(Pairs(t), a, p) && (forall q :: q in Pairs(t) ==> q.input != a)
    ensures Branches(p, a, random, Found(t, a, random))
  {
    hide Shr, Top, Bit, Lcp, Found, Insert, Inv, Pairs;
    var out, s := Found(t, a, random), Lcp(a, p.input) + 1;
    InsertKeeps(t, a, random);
    InvPreserves(Insert(t, a, random));
    assert Pair(a, out) in Pairs(Insert(t, a, random)) && p in Pairs(Insert(t, a, random));
    LcpTop(a, p.input);
    PartBits(out, p.output, s);
    forall j | s < j <= 32 ensures Bit(out, j) == if j == s + 1 then 0 else Bit(random, j - s) {
      FoundTail(t, a, random, p, j);
    }
  }

  lemma LcpTop(a: Addr, b: Addr)
    requires a != b
    ensures Lcp(a, b) < 32
  {
    LcpIs(a, b, 32);
    TopEnds(a);
    TopEnds(b);
  }
}
