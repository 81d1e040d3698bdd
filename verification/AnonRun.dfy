/** Runs of the A50 anonymiser: the memo, the two special addresses, and prefixes preset before
    the first address. */
module AnonRun {
  import opened Options
  import opened AnonBits
  import opened AnonTree

  const ALL_ONES: Addr := 0xFFFFFFFF

  /** 0.0.0.0 and 255.255.255.255 never enter the tree; `special` holds their outputs. */
  datatype Anon = Anon(root: Option<Tree>, special: (Addr, Addr), before: bool, mapping: map<Addr, Addr>)

  predicate Special(a: Addr) { a == 0 || a == ALL_ONES }

  function Start(): Anon { Anon(None, (0, ALL_ONES), true, map[]) }

  /** The tree after find_node(a). */
  function Visited(root: Option<Tree>, a: Addr, random: Addr): Option<Tree> {
    if Special(a) then root
    else match root
      case None => Some(Leaf(a, random))
      case Some(t) => Some(Insert(t, a, random))
  }

  /** The output of the node find_node(a) returns. */
  function OutputFor(s: Anon, a: Addr, random: Addr): Addr {
    if a == 0 then s.special.0
    else if a == ALL_ONES then s.special.1
    else match s.root
      case None => random
      case Some(t) => Found(t, a, random)
  }

  /** Anonymize(a): the answer and the state afterwards. */
  function Step(s: Anon, a: Addr, random: Addr): (Anon, Addr) {
    if a in s.mapping then (s, s.mapping[a])
    else
      var out := OutputFor(s, a, random);
      (Anon(Visited(s.root, a, random), s.special, false, s.mapping[a := out]), out)
  }

  ghost function RootPairs(root: Option<Tree>): set<Pair> {
    match root case None => {} case Some(t) => Pairs(t)
  }

  ghost predicate Good(s: Anon) {
    && (s.root.Some? ==> Inv(s.root.value))
    && forall a :: a in s.mapping && !Special(a) ==> Pair(a, s.mapping[a]) in RootPairs(s.root)
  }

  lemma VisitedKeeps(s: Anon, a: Addr, random: Addr)
    requires Good(s) && !Special(a)
    ensures var root' := Visited(s.root, a, random);
            && root'.Some? && Inv(root'.value)
            && RootPairs(root') == RootPairs(s.root) + {Pair(a, OutputFor(s, a, random))}
  {
    if s.root.Some? {
      InsertKeeps(s.root.value, a, random);
    }
  }

  /** Anonymize keeps the invariant, and nothing it answered before changes. */
  lemma StepKeeps(s: Anon, a: Addr, random: Addr)
    requires Good(s)
    ensures var (s', out) := Step(s, a, random);
            && Good(s')
            && a in s'.mapping && s'.mapping[a] == out
            && (forall b :: b in s.mapping ==> b in s'.mapping && s'.mapping[b] == s.mapping[b])
            && RootPairs(s.root) <= RootPairs(s'.root)
  {
    if a !in s.mapping && !Special(a) {
      VisitedKeeps(s, a, random);
    }
  }

  function Run(s: Anon, addrs: seq<Addr>, randoms: seq<Addr>): (r: (Anon, seq<Addr>))
    requires |addrs| == |randoms|
    ensures |r.1| == |addrs|
    decreases |addrs|
  {
    if addrs == [] then (s, [])
    else
      var (s1, out) := Step(s, addrs[0], randoms[0]);
      var (s2, outs) := Run(s1, addrs[1..], randoms[1..]);
      (s2, [out] + outs)
  }

  /** The final memo holds every answer of the run and every answer given before it. */
  lemma {:induction false} RunKeeps(s: Anon, addrs: seq<Addr>, randoms: seq<Addr>)
    requires Good(s) && |addrs| == |randoms|
    ensures var (s', outs) := Run(s, addrs, randoms);
            && Good(s')
            && (forall i :: 0 <= i < |addrs| ==> addrs[i] in s'.mapping && s'.mapping[addrs[i]] == outs[i])
            && (forall b :: b in s.mapping ==> b in s'.mapping && s'.mapping[b] == s.mapping[b])
            && RootPairs(s.root) <= RootPairs(s'.root)
    decreases |addrs|
  {
    if addrs != [] {
      StepKeeps(s, addrs[0], randoms[0]);
      var s1 := Step(s, addrs[0], randoms[0]).0;
      RunKeeps(s1, addrs[1..], randoms[1..]);
      var (s2, outs2) := Run(s1, addrs[1..], randoms[1..]);
      forall i | 0 <= i < |addrs|
        ensures addrs[i] in s2.mapping && s2.mapping[addrs[i]] == Run(s, addrs, randoms).1[i]
      {
        if i > 0 {
          assert addrs[i] == addrs[1..][i - 1];
        }
      }
    }
  }

  /** For every run and every random stream, any two addresses other than the special ones have
      outputs with exactly the common prefix of the inputs; equal addresses get equal outputs. */
  lemma RunPreservesPrefixes(s: Anon, addrs: seq<Addr>, randoms: seq<Addr>, i: nat, j: nat)
    requires Good(s) && |addrs| == |randoms| && i < |addrs| && j < |addrs|
    requires !Special(addrs[i]) && !Special(addrs[j])
    ensures var outs := Run(s, addrs, randoms).1;
            Lcp(outs[i], outs[j]) == Lcp(addrs[i], addrs[j])
  {
    RunKeeps(s, addrs, randoms);
    var (s', outs) := Run(s, addrs, randoms);
    assert Pair(addrs[i], outs[i]) in RootPairs(s'.root) && Pair(addrs[j], outs[j]) in RootPairs(s'.root);
    InvPreserves(s'.root.value);
  }

  // ---------------------------------------------------------------- what is answered

  /** The answer to an address: that given before, or the output it has already; for a new one, the random
      word if it is the first, and otherwise a branch off the output of the nearest inputs. */
  ghost predicate Answers(s: Anon, a: Addr, random: Addr, out: Addr) {
    if a in s.mapping then out == s.mapping[a]
    else if a == 0 then out == s.special.0
    else if a == ALL_ONES then out == s.special.1
    else if exists p :: p in RootPairs(s.root) && p.input == a then Pair(a, out) in RootPairs(s.root)
    else if RootPairs(s.root) == {} then out == random
    else forall p :: Nearest(RootPairs(s.root), a, p) ==> Branches(p, a, random, out)
  }

  lemma StepAnswers(s: Anon, a: Addr, random: Addr)
    requires Good(s)
    ensures Answers(s, a, random, Step(s, a, random).1)
  {
    hide Inv, Pairs, Found, Nearest, Branches;
    if a !in s.mapping && !Special(a) && s.root.Some? {
      var t := s.root.value;
      if exists p :: p in Pairs(t) && p.input == a {
        VisitedKeeps(s, a, random);
        var p :| p in Pairs(t) && p.input == a;
        KnownOutput(t, a, random, p);
      } else {
        RootIn(t);
        forall p | Nearest(Pairs(t), a, p) ensures Branches(p, a, random, Found(t, a, random)) {
          FoundBranches(t, a, random, p);
        }
      }
    }
  }

  /** An input that has an output keeps it. */
  lemma KnownOutput(t: Tree, a: Addr, random: Addr, p: Pair)
    requires Inv(t) && p in Pairs(t) && p.input == a
    ensures Found(t, a, random) == p.output
  {
    hide Inv, Pairs, Found, Insert, Lcp, Shr;
    InsertKeeps(t, a, random);
    InvPreserves(Insert(t, a, random));
    var q := Pair(a, Found(t, a, random));
    assert q in Pairs(Insert(t, a, random)) && p in Pairs(Insert(t, a, random));
    LcpIs(a, a, 32);
    LcpIs(p.output, q.output, 32);
    TopEnds(p.output);
    TopEnds(q.output);
  }

  /** A run is the run without its last address, and a step. */
  lemma {:induction false} RunLast(s: Anon, addrs: seq<Addr>, randoms: seq<Addr>)
    requires |addrs| == |randoms| > 0
    ensures var n := |addrs| - 1;
            var (s1, outs) := Run(s, addrs[..n], randoms[..n]);
            var (s2, out) := Step(s1, addrs[n], randoms[n]);
            Run(s, addrs, randoms) == (s2, outs + [out])
    decreases |addrs|
  {
    hide Step;
    var n := |addrs| - 1;
    var (s1, out) := Step(s, addrs[0], randoms[0]);
    if n == 0 {
      assert Run(s1, addrs[1..], randoms[1..]) == (s1, []);
      assert Run(s, addrs[..0], randoms[..0]) == (s, []);
      assert [out] + [] == [] + [out];
    } else {
      RunLast(s1, addrs[1..], randoms[1..]);
      assert addrs[1..][..n - 1] == addrs[..n][1..] && randoms[1..][..n - 1] == randoms[..n][1..];
      var outs := Run(s1, addrs[..n][1..], randoms[..n][1..]).1;
      assert Run(s, addrs[..n], randoms[..n]).1 == [out] + outs;
      var last := Step(Run(s, addrs[..n], randoms[..n]).0, addrs[n], randoms[n]).1;
      assert [out] + (outs + [last]) == ([out] + outs) + [last];
    }
  }

  ghost predicate Treed(addrs: seq<Addr>, outs: seq<Addr>, p: Pair)
    requires |addrs| == |outs|
  {
    exists k :: 0 <= k < |addrs| && !Special(addrs[k]) && p == Pair(addrs[k], outs[k])
  }

  /** The memo and the tree hold these addresses and what they were answered with; the special addresses
      stand for themselves. */
  ghost predicate Holds(s: Anon, addrs: seq<Addr>, outs: seq<Addr>)
    requires |addrs| == |outs|
  {
    && Good(s) && s.special == (0, ALL_ONES)
    && (forall a :: a in s.mapping <==> a in addrs)
    && (forall a :: a in s.mapping && Special(a) ==> s.mapping[a] == a)
    && (forall p :: p in RootPairs(s.root) <==> Treed(addrs, outs, p))
  }

  lemma {:induction false} RunHolds(addrs: seq<Addr>, randoms: seq<Addr>)
    requires |addrs| == |randoms|
    ensures var (s, outs) := Run(Start(), addrs, randoms); Holds(s, addrs, outs)
    decreases |addrs|
  {
    if addrs != [] {
      hide Step, Holds;
      var n := |addrs| - 1;
      RunHolds(addrs[..n], randoms[..n]);
      RunLast(Start(), addrs, randoms);
      var (s1, outs1) := Run(Start(), addrs[..n], randoms[..n]);
      hide Run;
      assert addrs == addrs[..n] + [addrs[n]];
      HoldsStep(s1, addrs[..n], outs1, addrs[n], randoms[n]);
    }
  }

  lemma HoldsStep(s: Anon, addrs: seq<Addr>, outs: seq<Addr>, a: Addr, random: Addr)
    requires |addrs| == |outs| && Holds(s, addrs, outs)
    ensures var (s', out) := Step(s, a, random); Holds(s', addrs + [a], outs + [out])
  {
    hide RootPairs, Treed, Found;
    StepKeeps(s, a, random);
    StepPairs(s, a, random);
    var out := Step(s, a, random).1;
    assert (addrs + [a])[..|addrs|] == addrs && (outs + [out])[..|addrs|] == outs;
    hide Inv, Visited;
    forall p ensures Treed(addrs + [a], outs + [out], p) <==>
                     Treed(addrs, outs, p) || (!Special(a) && p == Pair(a, out)) {
      TreedLast(addrs + [a], outs + [out], p);
    }
    if a in s.mapping && !Special(a) {
      assert Pair(a, out) in RootPairs(s.root);
    }
  }

  lemma TreedLast(addrs: seq<Addr>, outs: seq<Addr>, p: Pair)
    requires |addrs| == |outs| > 0
    ensures var n := |addrs| - 1;
            Treed(addrs, outs, p) <==> Treed(addrs[..n], outs[..n], p) ||
                                       (!Special(addrs[n]) && p == Pair(addrs[n], outs[n]))
  {
    var n := |addrs| - 1;
    if Treed(addrs[..n], outs[..n], p) {
      var k :| 0 <= k < n && !Special(addrs[..n][k]) && p == Pair(addrs[..n][k], outs[..n][k]);
      assert addrs[k] == addrs[..n][k] && outs[k] == outs[..n][k];
    }
    if Treed(addrs, outs, p) {
      var k :| 0 <= k < |addrs| && !Special(addrs[k]) && p == Pair(addrs[k], outs[k]);
      assert k < n ==> addrs[k] == addrs[..n][k] && outs[k] == outs[..n][k];
    }
  }

  lemma StepPairs(s: Anon, a: Addr, random: Addr)
    requires Good(s)
    ensures var (s', out) := Step(s, a, random);
            && s'.special == s.special
            && RootPairs(s'.root) ==
               if a in s.mapping || Special(a) then RootPairs(s.root) else RootPairs(s.root) + {Pair(a, out)}
  {
    if a !in s.mapping && !Special(a) {
      VisitedKeeps(s, a, random);
    }
  }

  /** The i-th answer of a run, by the run alone. */
  ghost predicate Explained(addrs: seq<Addr>, randoms: seq<Addr>, outs: seq<Addr>, i: nat)
    requires i < |addrs| == |randoms| == |outs|
  {
    var a := addrs[i];
    && (forall k :: 0 <= k < i && addrs[k] == a ==> outs[i] == outs[k])
    && (Special(a) ==> outs[i] == a)
    && (!Special(a) && (forall k :: 0 <= k < i ==> Special(addrs[k])) ==> outs[i] == randoms[i])
    && (!Special(a) && a !in addrs[..i] ==> forall k :: 0 <= k < i && NearestSoFar(addrs, i, k) ==>
          Branches(Pair(addrs[k], outs[k]), a, randoms[i], outs[i]))
  }

  /** None of the addresses before the i-th, special ones apart, has more in common with it than the k-th. */
  ghost predicate NearestSoFar(addrs: seq<Addr>, i: nat, k: nat)
    requires k < i < |addrs|
  {
    && !Special(addrs[k])
    && forall m :: 0 <= m < i && !Special(addrs[m]) ==> Lcp(addrs[i], addrs[m]) <= Lcp(addrs[i], addrs[k])
  }

  /** Every answer of every run from the start. */
  lemma RunAnswers(addrs: seq<Addr>, randoms: seq<Addr>, i: nat)
    requires i < |addrs| == |randoms|
    ensures Explained(addrs, randoms, Run(Start(), addrs, randoms).1, i)
  {
    var outs := Run(Start(), addrs, randoms).1;
    RunHolds(addrs[..i], randoms[..i]);
    var (s, before) := Run(Start(), addrs[..i], randoms[..i]);
    RunPrefix(Start(), addrs, randoms, i);
    SameAnswers(addrs, randoms);
    hide Run, Step, Good, Branches, RootPairs, Treed, Explained;
    StepAnswers(s, addrs[i], randoms[i]);
    AnswerExplains(s, addrs, randoms, outs, i);
  }

  lemma SameAnswers(addrs: seq<Addr>, randoms: seq<Addr>)
    requires |addrs| == |randoms|
    ensures var outs := Run(Start(), addrs, randoms).1;
            forall k, m :: 0 <= k < |addrs| && 0 <= m < |addrs| && addrs[k] == addrs[m] ==> outs[k] == outs[m]
  {
    RunKeeps(Start(), addrs, randoms);
    hide Run;
  }

  lemma {:induction false} RunPrefix(s: Anon, addrs: seq<Addr>, randoms: seq<Addr>, i: nat)
    requires i < |addrs| == |randoms|
    ensures var outs := Run(s, addrs, randoms).1;
            var (s1, before) := Run(s, addrs[..i], randoms[..i]);
            outs[..i] == before && outs[i] == Step(s1, addrs[i], randoms[i]).1
    decreases |addrs|
  {
    hide Step;
    var n := |addrs| - 1;
    RunLast(s, addrs, randoms);
    if i < n {
      RunPrefix(s, addrs[..n], randoms[..n], i);
      assert addrs[..n][..i] == addrs[..i] && randoms[..n][..i] == randoms[..i];
    }
  }

  lemma AnswerExplains(s: Anon, addrs: seq<Addr>, randoms: seq<Addr>, outs: seq<Addr>, i: nat)
    requires i < |addrs| == |randoms| == |outs|
    requires s.special == (0, ALL_ONES) && Answers(s, addrs[i], randoms[i], outs[i])
    requires forall a :: a in s.mapping <==> a in addrs[..i]
    requires forall p :: p in RootPairs(s.root) <==> Treed(addrs[..i], outs[..i], p)
    requires forall k, m :: 0 <= k < |addrs| && 0 <= m < |addrs| && addrs[k] == addrs[m] ==> outs[k] == outs[m]
    requires Special(addrs[i]) && addrs[i] in s.mapping ==> outs[i] == addrs[i]
    ensures Explained(addrs, randoms, outs, i)
  {
    hide Branches, RootPairs, Lcp;
    var a := addrs[i];
    if !Special(a) && a !in addrs[..i] {
      forall p | p in RootPairs(s.root) ensures p.input != a {
        assert Treed(addrs[..i], outs[..i], p);
      }
      if forall k :: 0 <= k < i ==> Special(addrs[k]) {
        assert RootPairs(s.root) == {};
      }
      forall k | 0 <= k < i && NearestSoFar(addrs, i, k)
          ensures Branches(Pair(addrs[k], outs[k]), a, randoms[i], outs[i]) {
        var p := Pair(addrs[k], outs[k]);
        assert addrs[..i][k] == addrs[k] && outs[..i][k] == outs[k];
        assert Treed(addrs[..i], outs[..i], p);
        assert Nearest(RootPairs(s.root), a, p);
      }
    }
  }

  // ---------------------------------------------------------------- preset prefixes

  /** The given prefix followed by random bits. */
  function PresetOutput(masked: Addr, bits: nat, random: Addr): (out: nat)
    requires bits <= 32
    ensures out < 0x1_0000_0000 && Top(out, bits) == Top(masked, bits)
  {
    var suffix := Shr(0xFFFFFFFF, bits);
    MaskPrefix(masked, bits);
    MaskSuffix(random, bits);
    TopOr(And(masked, PrefixMask(bits)), And(random, suffix), bits);
    XorBound(And(masked, PrefixMask(bits)), And(random, suffix));
    Or(And(masked, PrefixMask(bits)), And(random, suffix))
  }

  /** Behind the prefix the output has the bits of the random word. */
  lemma PresetBits(input: Addr, bits: nat, random: Addr, j: nat)
    requires bits <= 32 && 1 <= j <= 32
    ensures Bit(Masked(input, bits), j) == if j <= bits then Bit(input, j) else 0
    ensures Bit(PresetOutput(Masked(input, bits), bits, random), j) ==
            if j <= bits then Bit(input, j) else Bit(random, j)
  {
    hide Shr, Shl, And, Or, Bit;
    var masked := Masked(input, bits);
    MaskedBit(input, bits, j);
    MaskedBit(masked, bits, j);
    OnesAll();
    OnesShr(32, bits);
    BitOf(And(masked, PrefixMask(bits)), And(random, Ones(32 - bits)), j);
    BitOf(random, Ones(32 - bits), j);
    BitOfOnes(32 - bits, j);
  }

  lemma MaskedBit(x: Addr, bits: nat, j: nat)
    requires bits <= 32 && 1 <= j <= 32
    ensures Bit(And(x, PrefixMask(bits)), j) == if j <= bits then Bit(x, j) else 0
  {
    hide Shr, Shl, And, Or, Bit;
    MaskPrefix(x, bits);
    if j <= bits {
      AgreeBit(And(x, PrefixMask(bits)), x, bits, j);
    } else {
      BitOfShl(Top(x, bits), 32 - bits, j);
    }
  }

  function Masked(input: Addr, bits: nat): Addr
    requires bits <= 32
  {
    MaskPrefix(input, bits);
    And(input, PrefixMask(bits))
  }

  /** The first PreservePrefix(input, bits): false once anonymisation has begun. A prefix of zeros
      lands on the special node of 0.0.0.0. */
  function Preset(s: Anon, input: Addr, bits: nat, random: Addr): (Anon, bool)
    requires bits < 32 && (s.before ==> s.root.None?)
  {
    var masked := Masked(input, bits);
    if !s.before then (s, false)
    else if bits == 0 then (s, true)
    else
      var out := PresetOutput(masked, bits, random);
      if masked == 0 then (s.(special := (out, s.special.1)), true)
      else if masked == ALL_ONES then (s.(special := (s.special.0, out)), true)
      else (s.(root := Some(Leaf(masked, out))), true)
  }

  lemma PresetKeeps(s: Anon, input: Addr, bits: nat, random: Addr)
    requires bits < 32 && (s.before ==> s.root.None? && s.mapping == map[]) && Good(s)
    ensures Good(Preset(s, input, bits, random).0)
  {
  }

  lemma MaskNone(input: Addr)
    ensures Masked(input, 0) == 0
  {
    MaskPrefix(input, 0);
    FitsAddr(input);
    ShrZero(32);
  }

  /** With fewer than 32 bits the masked prefix is special exactly when it is all zeros. */
  lemma MaskedSpecial(input: Addr, bits: nat)
    requires 0 < bits < 32
    ensures Masked(input, bits) == 0 <==> Top(input, bits) == 0
    ensures Masked(input, bits) != ALL_ONES
  {
    MaskPrefix(input, bits);
    ShlZero(Top(input, bits), 32 - bits);
    ShlShl(Top(input, bits), 32 - bits - 1, 1);
  }

  ghost predicate Keeps(out: Addr, a: Addr, input: Addr, bits: nat) {
    forall m: nat :: m <= 32 && m <= bits && m <= Lcp(a, input) ==> Top(out, m) == Top(a, m)
  }

  lemma PresetLeafKeeps(leaf: Pair, p: Pair, input: Addr, bits: nat)
    requires bits <= 32 && Top(leaf.input, bits) == Top(input, bits) && Top(leaf.output, bits) == Top(input, bits)
    requires Lcp(p.input, leaf.input) == Lcp(p.output, leaf.output)
    ensures Keeps(p.output, p.input, input, bits)
  {
    forall m: nat | m <= 32 && m <= bits && m <= Lcp(p.input, input) ensures Top(p.output, m) == Top(p.input, m) {
      LcpIs(p.input, input, m);
      AgreeLess(leaf.input, input, bits, m);
      AgreeLess(leaf.output, input, bits, m);
      LcpIs(p.input, leaf.input, m);
      LcpIs(p.output, leaf.output, m);
    }
  }

  /** A preset prefix that is not all zeros is the one input of the tree: behind it come zeros, and random
      bits on the output side. */
  lemma PresetLeaf(input: Addr, bits: nat, random: Addr)
    requires 0 < bits < 32 && Top(input, bits) != 0
    ensures exists p: Pair ::
              && RootPairs(Preset(Start(), input, bits, random).0.root) == {p}
              && forall j :: 1 <= j <= 32 ==>
                   && Bit(p.input, j) == (if j <= bits then Bit(input, j) else 0)
                   && Bit(p.output, j) == if j <= bits then Bit(input, j) else Bit(random, j)
  {
    hide Bit, PresetOutput, Masked;
    MaskedSpecial(input, bits);
    var masked := Masked(input, bits);
    var p := Pair(masked, PresetOutput(masked, bits, random));
    assert RootPairs(Preset(Start(), input, bits, random).0.root) == {p};
    forall j | 1 <= j <= 32
      ensures Bit(p.input, j) == (if j <= bits then Bit(input, j) else 0)
      ensures Bit(p.output, j) == if j <= bits then Bit(input, j) else Bit(random, j)
    {
      PresetBits(input, bits, random, j);
    }
  }

  /** After one preset prefix that is not all zeros, every run still preserves prefixes and also
      keeps the first min(bits, lcp(a, input)) bits of every address a. */
  lemma PresetHolds(input: Addr, bits: nat, random: Addr, addrs: seq<Addr>, randoms: seq<Addr>, i: nat)
    requires 0 < bits < 32 && Top(input, bits) != 0
    requires |addrs| == |randoms| && i < |addrs| && !Special(addrs[i])
    ensures var s := Preset(Start(), input, bits, random).0;
            Good(s) && Keeps(Run(s, addrs, randoms).1[i], addrs[i], input, bits)
  {
    MaskedSpecial(input, bits);
    MaskPrefix(input, bits);
    var s := Preset(Start(), input, bits, random).0;
    var leaf := Pair(s.root.value.input, s.root.value.output);
    RunKeeps(s, addrs, randoms);
    var (s', outs) := Run(s, addrs, randoms);
    var p := Pair(addrs[i], outs[i]);
    assert leaf in RootPairs(s'.root) && p in RootPairs(s'.root);
    InvPreserves(s'.root.value);
    PresetLeafKeeps(leaf, p, input, bits);
  }

  /** Exactly the all-zero prefixes are not kept: there the preset changes only the output of
      0.0.0.0, and the first address is answered with the random word itself. */
  lemma PresetExactly(input: Addr, bits: nat)
    requires 0 < bits < 32
    ensures Top(input, bits) != 0 <==>
            forall random: Addr, a: Addr, w: Addr ::
              !Special(a) ==> Keeps(Step(Preset(Start(), input, bits, random).0, a, w).1, a, input, bits)
  {
    MaskedSpecial(input, bits);
    if Top(input, bits) != 0 {
      forall random: Addr, a: Addr, w: Addr | !Special(a)
        ensures Keeps(Step(Preset(Start(), input, bits, random).0, a, w).1, a, input, bits)
      {
        var s := Preset(Start(), input, bits, random).0;
        PresetHolds(input, bits, random, [a], [w], 0);
        assert Run(s, [a], [w]).1[0] == Step(s, a, w).1;
      }
    } else {
      var s := Preset(Start(), input, bits, 0).0;
      assert Step(s, 1, 0x80000000).1 == 0x80000000;
      OneHasZeroPrefix(bits);
      LcpIs(1, input, bits);
      OneHasZeroPrefix(1);
      AgreeLess(1, input, bits, 1);
      LcpIs(1, input, 1);
      assert Top(0x80000000, 1) == 1 by { TopOfHighBit(); }
      assert !Keeps(0x80000000, 1, input, bits);
    }
  }

  lemma OneHasZeroPrefix(bits: nat)
    requires bits < 32
    ensures Top(1, bits) == 0
  {
    ShrShr(1, 1, 31 - bits);
    ShrZero(31 - bits);
  }

  lemma TopOfHighBit()
    ensures Top(0x80000000, 1) == 1
  {
    OnesAll();
    OnesMinus(1, 31);
    assert Ones(1) == 1;
    ShlShr(1, 31);
  }
}
