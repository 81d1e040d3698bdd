/** Equivalence classes of symbols, kept as sorted doubly linked lists inside arrays and refined in
    place. */
module EquivClasses {
  import opened Seqs

  // ---------------------------------------------------------------- partitions

  /** Two symbols are equivalent when no set used so far tells them apart. */
  ghost predicate Same(used: seq<set<int>>, x: int, y: int) {
    forall i :: 0 <= i < |used| ==> (x in used[i] <==> y in used[i])
  }

  /** Block labels of a partition: equal labels, same block. */
  ghost predicate Labels(labels: seq<nat>, used: seq<set<int>>) {
    forall x, y :: 0 <= x < |labels| && 0 <= y < |labels| ==> (labels[x] == labels[y] <==> Same(used, x, y))
  }

  /** Split every block into its part inside and its part outside a set. */
  ghost function Split(labels: seq<nat>, syms: set<int>): (r: seq<nat>)
    ensures |r| == |labels|
  {
    seq(|labels|, x requires 0 <= x < |labels| => 2 * labels[x] + if x in syms then 1 else 0)
  }

  lemma SplitLabels(labels: seq<nat>, used: seq<set<int>>, syms: set<int>)
    requires Labels(labels, used)
    ensures Labels(Split(labels, syms), used + [syms])
  {
    var l', u' := Split(labels, syms), used + [syms];
    forall x, y | 0 <= x < |labels| && 0 <= y < |labels| ensures l'[x] == l'[y] <==> Same(u', x, y) {
      assert Same(u', x, y) <==> Same(used, x, y) && (x in syms <==> y in syms) by {
        assert u'[|used|] == syms;
        assert forall i :: 0 <= i < |used| ==> u'[i] == used[i];
      }
    }
  }

  // ---------------------------------------------------------------- links

  /** n is the next symbol after x in x's block, or nil. */
  ghost predicate IsNext(labels: seq<nat>, x: int, n: int, nil: int)
    requires 0 <= x < |labels|
  {
    if n == nil then forall y :: x < y < |labels| ==> labels[y] != labels[x]
    else x < n < |labels| && labels[n] == labels[x] && forall y :: x < y < n ==> labels[y] != labels[x]
  }

  ghost predicate IsPrev(labels: seq<nat>, x: int, p: int, nil: int)
    requires 0 <= x < |labels|
  {
    if p == nil then forall y :: 0 <= y < x ==> labels[y] != labels[x]
    else 0 <= p < x && labels[p] == labels[x] && forall y :: p < y < x ==> labels[y] != labels[x]
  }

  ghost predicate Linked(fwd: seq<int>, bck: seq<int>, labels: seq<nat>, nil: int)
    ensures Linked(fwd, bck, labels, nil) ==> |fwd| == |bck| == |labels| < nil
  {
    && |fwd| == |bck| == |labels| < nil
    && forall x :: 0 <= x < |labels| ==> IsNext(labels, x, fwd[x], nil) && IsPrev(labels, x, bck[x], nil)
  }

  lemma NextPrev(fwd: seq<int>, bck: seq<int>, labels: seq<nat>, nil: int, x: int, y: int)
    requires Linked(fwd, bck, labels, nil) && 0 <= x < |labels| && 0 <= y < |labels|
    ensures fwd[x] == y <==> bck[y] == x
  {
    assert IsNext(labels, x, fwd[x], nil) && IsPrev(labels, y, bck[y], nil);
  }

  /** The links after a symbol has been unhooked. */
  ghost function Unhooked(fwd: seq<int>, bck: seq<int>, sym: nat, nil: int): (r: (seq<int>, seq<int>))
    requires |fwd| == |bck| && sym < |fwd|
    requires fwd[sym] == nil || 0 <= fwd[sym] < |fwd|
    requires bck[sym] == nil || 0 <= bck[sym] < |fwd|
    ensures |r.0| == |r.1| == |fwd|
  {
    var b1 := if fwd[sym] != nil then bck[fwd[sym] := bck[sym]] else bck;
    var f1 := if bck[sym] != nil then fwd[bck[sym] := fwd[sym]] else fwd;
    (f1[sym := nil], b1[sym := nil])
  }

  lemma UnhookedAt(fwd: seq<int>, bck: seq<int>, labels: seq<nat>, nil: int, sym: nat, x: int)
    requires Linked(fwd, bck, labels, nil) && 0 <= sym < |labels| && 0 <= x < |labels|
    requires fwd[sym] == nil || sym < fwd[sym] < |fwd|
    requires bck[sym] == nil || 0 <= bck[sym] < sym
    ensures var l', (f', b') := Split(labels, {sym}), Unhooked(fwd, bck, sym, nil);
            IsNext(l', x, f'[x], nil) && IsPrev(l', x, b'[x], nil)
  {
    assert IsNext(labels, sym, fwd[sym], nil) && IsPrev(labels, sym, bck[sym], nil);
    assert IsNext(labels, x, fwd[x], nil) && IsPrev(labels, x, bck[x], nil);
    NextPrev(fwd, bck, labels, nil, x, sym);
    NextPrev(fwd, bck, labels, nil, sym, x);
  }

  // ---------------------------------------------------------------- splitting one block

  /** Relabel the members of block b that lie in C. */
  ghost function Halved(h: seq<nat>, C: set<int>, b: nat): (r: seq<nat>)
    ensures |r| == |h|
  {
    seq(|h|, x requires 0 <= x < |h| => if h[x] == b && x in C then b + 1 else h[x])
  }

  ghost predicate Unused(h: seq<nat>, b: nat) { forall x :: 0 <= x < |h| ==> h[x] != b }

  /** Last member of block b below K that is in C (or is not). */
  ghost predicate LastOf(h: seq<nat>, C: set<int>, b: nat, K: int, inside: bool, e: int)
    requires K <= |h|
  {
    0 <= e < K && h[e] == b && (e in C <==> inside) && forall y :: e < y < K && h[y] == b ==> (y in C <==> !inside)
  }

  /** The walk along the block of `sym` has dealt with the members below K: those in C hang together
      up to `newEc`, the others up to `oldEc`; the links of these two ends and of `sym` are open. */
  ghost predicate Walk(fwd: seq<int>, bck: seq<int>, h: seq<nat>, C: set<int>, sym: int, nil: int,
                       K: int, oldEc: int, newEc: int)
  {
    && |fwd| == |bck| == |h| < nil && 0 <= sym < K <= |h| && sym in C
    && Unused(h, h[sym] + 1)
    && (forall x :: 0 <= x < sym && h[x] == h[sym] ==> x !in C)
    && (K < |h| ==> h[K] == h[sym])
    && LastOf(h, C, h[sym], K, true, newEc)
    && (if oldEc == nil then forall y :: 0 <= y < K && h[y] == h[sym] ==> y in C
        else LastOf(h, C, h[sym], K, false, oldEc))
    && (forall x :: 0 <= x < |h| && h[x] != h[sym] ==> IsNext(h, x, fwd[x], nil) && IsPrev(h, x, bck[x], nil))
    && (forall x :: K <= x < |h| && h[x] == h[sym] ==> IsNext(h, x, fwd[x], nil))
    && (forall x :: 0 <= x < K && h[x] == h[sym] && x != oldEc && x != newEc ==>
        IsNext(Halved(h, C, h[sym]), x, fwd[x], nil))
    && (forall x :: 0 <= x < K && h[x] == h[sym] && x != sym ==> IsPrev(Halved(h, C, h[sym]), x, bck[x], nil))
    && IsPrev(h, sym, bck[sym], nil)
  }

  /** The position the walk goes to from K. */
  ghost function Onward(h: seq<nat>, n: int, nil: int): int { if n == nil then |h| else n }

  lemma WalkStarts(fwd: seq<int>, bck: seq<int>, h: seq<nat>, C: set<int>, sym: int, nil: int)
    requires Linked(fwd, bck, h, nil) && 0 <= sym < |h| && sym in C && Unused(h, h[sym] + 1)
    requires forall x :: 0 <= x < sym && h[x] == h[sym] ==> x !in C
    ensures Walk(fwd, bck, h, C, sym, nil, Onward(h, fwd[sym], nil), bck[sym], sym)
  {
    assert IsNext(h, sym, fwd[sym], nil) && IsPrev(h, sym, bck[sym], nil);
    var K, h' := Onward(h, fwd[sym], nil), Halved(h, C, h[sym]);
    forall x | 0 <= x < K && h[x] == h[sym] && x != bck[sym] && x != sym ensures IsNext(h', x, fwd[x], nil) {
      assert IsNext(h, x, fwd[x], nil);
      assert x < sym;
    }
    forall x | 0 <= x < K && h[x] == h[sym] && x != sym ensures IsPrev(h', x, bck[x], nil) {
      assert IsPrev(h, x, bck[x], nil);
      assert x < sym;
    }
  }

  /** From K the walk goes to the next member of the block. */
  lemma OnwardIs(h: seq<nat>, K: int, n: int, nil: int)
    requires 0 <= K < |h| && IsNext(h, K, n, nil)
    ensures K < Onward(h, n, nil) <= |h|
    ensures Onward(h, n, nil) < |h| ==> h[Onward(h, n, nil)] == h[K]
    ensures forall y :: K < y < Onward(h, n, nil) ==> h[y] != h[K]
  {
  }

  /** The last member on one side, once K has joined it. */
  lemma HooksTo(h: seq<nat>, C: set<int>, b: nat, K: int, e: int, nil: int)
    requires 0 <= K < |h| < nil && h[K] == b && Unused(h, b + 1) && LastOf(h, C, b, K, K in C, e)
    ensures IsNext(Halved(h, C, b), e, K, nil) && IsPrev(Halved(h, C, b), K, e, nil)
  {
  }

  lemma HooksToNone(h: seq<nat>, C: set<int>, b: nat, K: int, nil: int)
    requires 0 <= K < |h| < nil && h[K] == b && Unused(h, b + 1) && K !in C
    requires forall y :: 0 <= y < K && h[y] == b ==> y in C
    ensures IsPrev(Halved(h, C, b), K, nil, nil)
  {
  }

  /** A member of C is hooked to the new class. */
  lemma WalkIn(fwd: seq<int>, bck: seq<int>, h: seq<nat>, C: set<int>, sym: int, nil: int, K: int, oldEc: int,
      newEc: int)
    requires Walk(fwd, bck, h, C, sym, nil, K, oldEc, newEc) && K < |h| && K in C
    ensures Walk(fwd[newEc := K], bck[K := newEc], h, C, sym, nil, Onward(h, fwd[K], nil), oldEc, K)
  {
    hide IsNext, IsPrev, Halved, Onward;
    OnwardIs(h, K, fwd[K], nil);
    HooksTo(h, C, h[sym], K, newEc, nil);
  }

  /** Any other member goes back to the old class. */
  lemma WalkOut(fwd: seq<int>, bck: seq<int>, h: seq<nat>, C: set<int>, sym: int, nil: int, K: int, oldEc: int,
      newEc: int)
    requires Walk(fwd, bck, h, C, sym, nil, K, oldEc, newEc) && K < |h| && K !in C
    ensures Walk(if oldEc != nil then fwd[oldEc := K] else fwd, bck[K := oldEc], h, C, sym, nil,
                 Onward(h, fwd[K], nil), K, newEc)
  {
    hide IsNext, IsPrev, Halved, Onward;
    OnwardIs(h, K, fwd[K], nil);
    if oldEc != nil {
      HooksTo(h, C, h[sym], K, oldEc, nil);
    } else {
      HooksToNone(h, C, h[sym], K, nil);
    }
  }

  /** Blocks other than b are not affected by the relabelling. */
  lemma HalvedElsewhere(h: seq<nat>, C: set<int>, b: nat, x: int, n: int, p: int, nil: int)
    requires 0 <= x < |h| < nil && h[x] != b && Unused(h, b + 1)
    requires IsNext(h, x, n, nil) && IsPrev(h, x, p, nil)
    ensures IsNext(Halved(h, C, b), x, n, nil) && IsPrev(Halved(h, C, b), x, p, nil)
  {
  }

  /** The last member on either side has no successor, and `sym` no predecessor in C. */
  lemma EndsAre(h: seq<nat>, C: set<int>, sym: int, nil: int, e: int)
    requires 0 <= sym < |h| < nil && sym in C && Unused(h, h[sym] + 1)
    requires forall x :: 0 <= x < sym && h[x] == h[sym] ==> x !in C
    requires 0 <= e < |h| && LastOf(h, C, h[sym], |h|, e in C, e)
    ensures IsNext(Halved(h, C, h[sym]), e, nil, nil) && IsPrev(Halved(h, C, h[sym]), sym, nil, nil)
  {
  }

  /** Closing the open ends leaves the block split in two. */
  lemma WalkEnds(fwd: seq<int>, bck: seq<int>, h: seq<nat>, C: set<int>, sym: int, nil: int, oldEc: int, newEc: int)
    requires Walk(fwd, bck, h, C, sym, nil, |h|, oldEc, newEc)
    ensures var f1 := if oldEc != nil then fwd[oldEc := nil] else fwd;
            Linked(f1[newEc := nil], bck[sym := nil], Halved(h, C, h[sym]), nil)
  {
    hide IsNext, IsPrev, Halved;
    EndsAre(h, C, sym, nil, newEc);
    if oldEc != nil {
      EndsAre(h, C, sym, nil, oldEc);
    }
    forall x | 0 <= x < |h| && h[x] != h[sym]
      ensures IsNext(Halved(h, C, h[sym]), x, fwd[x], nil) && IsPrev(Halved(h, C, h[sym]), x, bck[x], nil)
    {
      HalvedElsewhere(h, C, h[sym], x, fwd[x], bck[x], nil);
    }
  }

  lemma NoneBetween(fwd: seq<int>, bck: seq<int>, h: seq<nat>, nil: int, sym: int)
    requires Linked(fwd, bck, h, nil) && 0 <= sym < |h|
    ensures forall y :: sym < y < Onward(h, fwd[sym], nil) ==> h[y] != h[sym]
  {
    assert IsNext(h, sym, fwd[sym], nil);
  }

  lemma LinkedAt(fwd: seq<int>, bck: seq<int>, labels: seq<nat>, nil: int, x: int)
    requires Linked(fwd, bck, labels, nil) && 0 <= x < |labels|
    ensures fwd[x] == nil || x < fwd[x] < |labels|
    ensures bck[x] == nil || 0 <= bck[x] < x
  {
    assert IsNext(labels, x, fwd[x], nil) && IsPrev(labels, x, bck[x], nil);
  }

  /** What the walk needs to know at its current position. */
  lemma WalkAt(fwd: seq<int>, bck: seq<int>, h: seq<nat>, C: set<int>, sym: int, nil: int, K: int, oldEc: int,
      newEc: int)
    requires Walk(fwd, bck, h, C, sym, nil, K, oldEc, newEc)
    ensures |fwd| == |bck| == |h| < nil && 0 <= sym < K <= |h|
    ensures 0 <= newEc < K && (oldEc == nil || 0 <= oldEc < K) && oldEc != newEc
    ensures bck[sym] == nil || oldEc != nil
    ensures K < |h| ==> h[K] == h[sym] && (fwd[K] == nil || K < fwd[K] < |h|)
    ensures K < |h| ==> forall y :: K < y < Onward(h, fwd[K], nil) ==> h[y] != h[sym]
  {
    assert IsPrev(h, sym, bck[sym], nil);
    assert K < |h| ==> IsNext(h, K, fwd[K], nil);
  }

  /** The flags once the walk along the block of the i-th symbol has reached K: those of the block's
      members below K are raised, the others are as they were. */
  ghost predicate Flags(flags: seq<bool>, was: seq<bool>, csyms: seq<int>, h: seq<nat>, i: nat, K: int)
    ensures Flags(flags, was, csyms, h, i, K) ==> |flags| == |was| == |h|
  {
    && |flags| == |was| == |h|
    && (forall j :: 0 <= j < |csyms| ==> 0 <= csyms[j] < |h|)
    && i < |csyms| <= |h|
    && forall j :: 0 <= j < |h| ==>
         (flags[j] <==> was[j] || (i < j < |csyms| && csyms[j] < K && h[csyms[j]] == h[csyms[i]]))
  }

  lemma FlagsStart(flags: seq<bool>, csyms: seq<int>, h: seq<nat>, i: nat, K: int)
    requires |flags| == |h| && i < |csyms| <= |h| && Ascending(csyms)
    requires forall j :: 0 <= j < |csyms| ==> 0 <= csyms[j] < |h|
    requires K <= |h| && forall y :: csyms[i] < y < K ==> h[y] != h[csyms[i]]
    ensures Flags(flags, flags, csyms, h, i, K)
  {
  }

  lemma FlagsAt(flags: seq<bool>, was: seq<bool>, csyms: seq<int>, h: seq<nat>, i: nat, k: int)
    requires Flags(flags, was, csyms, h, i, k) && 0 <= k < |h| && h[k] == h[csyms[i]]
    requires forall j :: i <= j < |csyms| && h[csyms[j]] == h[csyms[i]] ==> !was[j]
    ensures forall j :: i < j < |csyms| && csyms[j] == k ==> !flags[j]
  {
  }

  lemma FlagsSet(flags: seq<bool>, was: seq<bool>, csyms: seq<int>, h: seq<nat>, i: nat, j: nat, k: int, K: int)
    requires Flags(flags, was, csyms, h, i, k) && Ascending(csyms) && i < j < |csyms| && csyms[j] == k < K <= |h|
    requires h[k] == h[csyms[i]] && forall y :: k < y < K ==> h[y] != h[csyms[i]]
    ensures Flags(flags[j := true], was, csyms, h, i, K)
  {
  }

  lemma FlagsKept(flags: seq<bool>, was: seq<bool>, csyms: seq<int>, h: seq<nat>, i: nat, k: int, K: int)
    requires Flags(flags, was, csyms, h, i, k) && 0 <= k < K <= |h| && k !in csyms
    requires h[k] == h[csyms[i]] && forall y :: k < y < K ==> h[y] != h[csyms[i]]
    ensures Flags(flags, was, csyms, h, i, K)
  {
  }

  /** The labels while a class is being used: the blocks in `done` are already split. */
  ghost function Partly(labels: seq<nat>, C: set<int>, done: set<nat>): (r: seq<nat>)
    ensures |r| == |labels|
  {
    seq(|labels|, x requires 0 <= x < |labels| => 2 * labels[x] + if x in C && labels[x] in done then 1 else 0)
  }

  lemma PartlySplits(labels: seq<nat>, C: set<int>, done: set<nat>, sym: int)
    requires 0 <= sym < |labels| && labels[sym] !in done
    ensures var h := Partly(labels, C, done);
            Halved(h, C, h[sym]) == Partly(labels, C, done + {labels[sym]}) && Unused(h, h[sym] + 1)
    ensures forall x :: 0 <= x < |labels| ==>
            (Partly(labels, C, done)[x] == Partly(labels, C, done)[sym] <==> labels[x] == labels[sym])
  {
  }

  lemma PartlyStarts(fwd: seq<int>, bck: seq<int>, labels: seq<nat>, C: set<int>, nil: int)
    requires Linked(fwd, bck, labels, nil)
    ensures Linked(fwd, bck, Partly(labels, C, {}), nil)
  {
    var h := Partly(labels, C, {});
    forall x | 0 <= x < |h| ensures IsNext(h, x, fwd[x], nil) && IsPrev(h, x, bck[x], nil) {
      assert IsNext(labels, x, fwd[x], nil) && IsPrev(labels, x, bck[x], nil);
    }
  }

  /** Flags are raised exactly from i on, for symbols of blocks already split. */
  ghost predicate Marks(flags: seq<bool>, csyms: seq<int>, labels: seq<nat>, done: set<nat>, i: nat)
    requires forall j :: 0 <= j < |csyms| ==> 0 <= csyms[j] < |labels|
  {
    forall j :: 0 <= j < |flags| ==> (flags[j] <==> i <= j < |csyms| && labels[csyms[j]] in done)
  }

  /** An unflagged symbol is the first of its block in the class, and its block is not split. */
  lemma MarksReady(flags: seq<bool>, csyms: seq<int>, labels: seq<nat>, C: set<int>, done: set<nat>, i: nat)
    requires Ascending(csyms) && C == Elements(csyms) && |csyms| <= |flags| && i < |csyms| && !flags[i]
    requires forall j :: 0 <= j < |csyms| ==> 0 <= csyms[j] < |labels|
    requires Marks(flags, csyms, labels, done, i) && forall j :: 0 <= j < i ==> labels[csyms[j]] in done
    ensures labels[csyms[i]] !in done
    ensures var h := Partly(labels, C, done);
            && (forall x :: 0 <= x < csyms[i] && h[x] == h[csyms[i]] ==> x !in C)
            && (forall j :: i <= j < |csyms| && h[csyms[j]] == h[csyms[i]] ==> !flags[j])
  {
    var h, sym := Partly(labels, C, done), csyms[i];
    PartlySplits(labels, C, done, sym);
    hide Partly, Halved, Unused;
    forall j | 0 <= j < |csyms| && csyms[j] < sym ensures labels[csyms[j]] in done {
      assert j < i;
    }
  }

  lemma MarksMore(flags: seq<bool>, was: seq<bool>, csyms: seq<int>, labels: seq<nat>, C: set<int>, done: set<nat>,
      i: nat)
    requires forall j :: 0 <= j < |csyms| ==> 0 <= csyms[j] < |labels|
    requires i < |csyms| <= |was| && !was[i] && Marks(was, csyms, labels, done, i) && labels[csyms[i]] !in done
    requires |was| == |labels| && Flags(flags, was, csyms, Partly(labels, C, done), i, |labels|)
    ensures Marks(flags, csyms, labels, done + {labels[csyms[i]]}, i + 1)
  {
    PartlySplits(labels, C, done, csyms[i]);
    hide Partly, Halved, Unused;
  }

  lemma AllSplit(csyms: seq<int>, labels: seq<nat>, done: set<nat>)
    requires forall j :: 0 <= j < |csyms| ==> 0 <= csyms[j] < |labels|
    requires forall j :: 0 <= j < |csyms| ==> labels[csyms[j]] in done
    ensures Partly(labels, Elements(csyms), done) == Split(labels, Elements(csyms))
  {
  }

  /** A sorted list of distinct symbols is no longer than the alphabet. */
  lemma {:induction false} AscendingFits(s: seq<int>, n: nat)
    requires Ascending(s) && forall i :: 0 <= i < |s| ==> 0 <= s[i] < n
    ensures |s| <= n
  {
    if s != [] {
      AscendingFits(s[..|s| - 1], s[|s| - 1]);
    }
  }

  // ---------------------------------------------------------------- numbering

  /** m is the least symbol of x's block. */
  ghost predicate IsLeast(labels: seq<nat>, m: int, x: int) {
    0 <= m <= x < |labels| && labels[m] == labels[x] && forall y :: 0 <= y < m ==> labels[y] != labels[x]
  }

  ghost function Least(labels: seq<nat>, x: int, from: nat): (m: nat)
    requires from <= x < |labels| && forall y :: 0 <= y < from ==> labels[y] != labels[x]
    ensures IsLeast(labels, m, x)
    decreases x - from
  {
    if labels[from] == labels[x] then from else Least(labels, x, from + 1)
  }

  lemma LeastIs(labels: seq<nat>, x: int, m: nat)
    requires 0 <= x < |labels| && m < |labels|
    ensures Least(labels, x, 0) == m <==> IsLeast(labels, m, x)
    ensures IsLeast(labels, m, x) ==> IsLeast(labels, m, m) && m <= x && labels[x] == labels[m]
  {
  }

  lemma HeadHasNoPrev(fwd: seq<int>, bck: seq<int>, labels: seq<nat>, nil: int, m: int)
    requires Linked(fwd, bck, labels, nil) && 0 <= m < |labels|
    ensures bck[m] == nil <==> IsLeast(labels, m, m)
  {
    assert IsPrev(labels, m, bck[m], nil);
  }

  /** How many blocks have their least symbol below n. */
  ghost function Heads(labels: seq<nat>, n: nat): (r: nat)
    requires n <= |labels|
    ensures r <= n
  {
    if n == 0 then 0 else Heads(labels, n - 1) + if IsLeast(labels, n - 1, n - 1) then 1 else 0
  }

  lemma {:induction false} HeadsAscend(labels: seq<nat>, m: nat, n: nat)
    requires m < n <= |labels| && IsLeast(labels, m, m)
    ensures Heads(labels, m) < Heads(labels, n)
  {
    if m < n - 1 {
      HeadsAscend(labels, m, n - 1);
    }
  }

  /** Every number below the count belongs to a block. */
  lemma {:induction false} HeadsOnto(labels: seq<nat>, n: nat, k: nat) returns (m: nat)
    requires n <= |labels| && k < Heads(labels, n)
    ensures m < n && IsLeast(labels, m, m) && Heads(labels, m) == k
  {
    if k < Heads(labels, n - 1) {
      m := HeadsOnto(labels, n - 1, k);
    } else {
      m := n - 1;
    }
  }

  ghost predicate Numbered(labels: seq<nat>, base: nat, x: int, ec: int, rep: int)
  {
    0 <= x < |labels| && IsLeast(labels, rep, x) && ec == base + Heads(labels, rep)
  }

  /** The blocks whose least symbol lies below i are numbered. */
  ghost predicate NumberedTo(labels: seq<nat>, base: nat, ecs: seq<int>, reps: seq<int>, i: nat) {
    && |ecs| == |reps| == |labels|
    && forall x :: 0 <= x < |labels| && Least(labels, x, 0) < i ==> Numbered(labels, base, x, ecs[x], reps[x])
  }

  lemma NumberedToStart(labels: seq<nat>, base: nat, ecs: seq<int>, reps: seq<int>)
    requires |ecs| == |reps| == |labels|
    ensures NumberedTo(labels, base, ecs, reps, 0)
  {
  }

  lemma NumberedToNext(labels: seq<nat>, base: nat, ecs: seq<int>, reps: seq<int>, ecs': seq<int>, reps': seq<int>,
      i: nat)
    requires NumberedTo(labels, base, ecs, reps, i) && i < |labels| && |ecs'| == |reps'| == |labels|
    requires if IsLeast(labels, i, i)
             then (forall x :: i <= x < |labels| && labels[x] == labels[i] ==>
                 Numbered(labels, base, x, ecs'[x], reps'[x]))
               && (forall x :: 0 <= x < |labels| && labels[x] != labels[i] ==> ecs'[x] == ecs[x] && reps'[x] == reps[x])
             else ecs' == ecs && reps' == reps
    ensures NumberedTo(labels, base, ecs', reps', i + 1)
  {
    forall x | 0 <= x < |labels| && Least(labels, x, 0) < i + 1 ensures Numbered(labels, base, x, ecs'[x], reps'[x]) {
      hide Numbered, Least;
      LeastIs(labels, x, i);
      LeastIs(labels, x, Least(labels, x, 0));
      assert Least(labels, x, 0) < i ==> Numbered(labels, base, x, ecs[x], reps[x]);
    }
  }

  lemma NumberedToEnd(labels: seq<nat>, base: nat, ecs: seq<int>, reps: seq<int>)
    requires NumberedTo(labels, base, ecs, reps, |labels|)
    ensures |ecs| == |reps| == |labels|
    ensures forall x :: 0 <= x < |labels| ==> Numbered(labels, base, x, ecs[x], reps[x])
  {
    forall x | 0 <= x < |labels| ensures Numbered(labels, base, x, ecs[x], reps[x]) {
      LeastIs(labels, x, Least(labels, x, 0));
    }
  }

  lemma RepBounds(labels: seq<nat>, base: nat, x: int, ec: int)
    requires Numbered(labels, base, x, ec, x)
    ensures 0 <= ec - base < Heads(labels, |labels|)
  {
    HeadsAscend(labels, x, |labels|);
  }

  lemma NumberedSame(labels: seq<nat>, used: seq<set<int>>, base: nat, x: int, ex: int, rx: int, y: int, ey: int,
      ry: int)
    requires Labels(labels, used) && Numbered(labels, base, x, ex, rx) && Numbered(labels, base, y, ey, ry)
    ensures ex == ey <==> Same(used, x, y)
    ensures rx == ry <==> Same(used, x, y)
    ensures rx < ry <==> ex < ey
  {
    assert labels[x] == labels[y] <==> Same(used, x, y);
    if rx < ry {
      assert IsLeast(labels, rx, rx);
      HeadsAscend(labels, rx, ry);
    } else if ry < rx {
      assert IsLeast(labels, ry, ry);
      HeadsAscend(labels, ry, rx);
    }
  }

  /** The numbers of the representatives among some symbols. */
  ghost function Converted(csyms: seq<int>, ecs: seq<int>, reps: seq<int>): seq<int>
    requires |ecs| == |reps| && forall j :: 0 <= j < |csyms| ==> 0 <= csyms[j] < |ecs|
  {
    if csyms == [] then []
    else
      var n := |csyms| - 1;
      Converted(csyms[..n], ecs, reps) + if reps[csyms[n]] == csyms[n] then [ecs[csyms[n]]] else []
  }

  lemma {:induction false} ConvertedFrom(csyms: seq<int>, ecs: seq<int>, reps: seq<int>, c: int)
    requires |ecs| == |reps| && forall j :: 0 <= j < |csyms| ==> 0 <= csyms[j] < |ecs|
    ensures c in Converted(csyms, ecs, reps) <==>
            exists j :: 0 <= j < |csyms| && reps[csyms[j]] == csyms[j] && ecs[csyms[j]] == c
  {
    if csyms != [] {
      var n := |csyms| - 1;
      ConvertedFrom(csyms[..n], ecs, reps, c);
      assert forall j :: 0 <= j < n ==> csyms[..n][j] == csyms[j];
    }
  }

  ghost predicate AllNumbered(labels: seq<nat>, base: nat, ecs: seq<int>, reps: seq<int>) {
    |ecs| == |reps| == |labels| && forall x :: 0 <= x < |labels| ==> Numbered(labels, base, x, ecs[x], reps[x])
  }

  lemma {:induction false} ConvertedAscends(labels: seq<nat>, used: seq<set<int>>, base: nat, csyms: seq<int>,
      ecs: seq<int>, reps: seq<int>)
    requires Labels(labels, used) && AllNumbered(labels, base, ecs, reps)
    requires Ascending(csyms) && forall j :: 0 <= j < |csyms| ==> 0 <= csyms[j] < |labels|
    ensures Ascending(Converted(csyms, ecs, reps))
    ensures forall c :: c in Converted(csyms, ecs, reps) ==> base <= c < base + Heads(labels, |labels|)
  {
    hide Numbered, Labels, Heads, Same;
    if csyms != [] {
      var n := |csyms| - 1;
      var head, last := Converted(csyms[..n], ecs, reps), csyms[n];
      ConvertedAscends(labels, used, base, csyms[..n], ecs, reps);
      assert Numbered(labels, base, last, ecs[last], reps[last]);
      if reps[last] == last {
        RepBounds(labels, base, last, ecs[last]);
        forall k | 0 <= k < |head| ensures head[k] < ecs[last] {
          ConvertedFrom(csyms[..n], ecs, reps, head[k]);
          var j :| 0 <= j < n && reps[csyms[j]] == csyms[j] && ecs[csyms[j]] == head[k];
          var r := csyms[j];
          assert Numbered(labels, base, r, ecs[r], reps[r]);
          NumberedSame(labels, used, base, r, ecs[r], reps[r], last, ecs[last], reps[last]);
        }
      }
    }
  }

  /** The number of a block is in the converted class exactly when its representative is in the class; for a
      class that was used, exactly when any symbol of the block is. */
  lemma ConvertedStands(labels: seq<nat>, used: seq<set<int>>, base: nat, csyms: seq<int>, ecs: seq<int>,
      reps: seq<int>, x: int)
    requires Labels(labels, used) && AllNumbered(labels, base, ecs, reps)
    requires (forall j :: 0 <= j < |csyms| ==> 0 <= csyms[j] < |labels|) && 0 <= x < |labels|
    ensures reps[x] in csyms <==> ecs[x] in Converted(csyms, ecs, reps)
    ensures Elements(csyms) in used ==> (x in csyms <==> ecs[x] in Converted(csyms, ecs, reps))
  {
    hide Converted, Heads;
    var m := reps[x];
    assert Numbered(labels, base, x, ecs[x], m);
    assert Numbered(labels, base, m, ecs[m], reps[m]);
    assert labels[m] == labels[x] && Same(used, m, x);
    assert (x in csyms <==> x in Elements(csyms)) && (m in csyms <==> m in Elements(csyms));
    ConvertedFrom(csyms, ecs, reps, ecs[x]);
    hide Numbered, IsLeast, Labels, Same, Elements;
    forall j | 0 <= j < |csyms| && reps[csyms[j]] == csyms[j] && ecs[csyms[j]] == ecs[x] ensures csyms[j] == m {
      var r := csyms[j];
      NumberedSame(labels, used, base, r, ecs[r], reps[r], x, ecs[x], m);
    }
  }

  /** Any partition of the symbols whose blocks respect every used set refines this one. */
  lemma Coarsest(labels: seq<nat>, used: seq<set<int>>, other: seq<nat>, x: int, y: int)
    requires Labels(labels, used) && |other| == |labels|
    requires 0 <= x < |labels| && 0 <= y < |labels| && other[x] == other[y]
    requires forall i, a, b :: 0 <= i < |used| && 0 <= a < |other| && 0 <= b < |other| && other[a] == other[b] ==>
                               (a in used[i] <==> b in used[i])
    ensures labels[x] == labels[y]
  {
    assert Same(used, x, y);
  }

  class EquivClass {
    const size: nat
    const nil: nat
    var numEcs: nat
    const fwd: array<int>
    const bck: array<int>
    const equivClass: array<int>
    const rep: array<int>
    var cclFlags: array?<bool>
    ghost var labels: seq<nat>
    ghost var used: seq<set<int>>

    ghost predicate Shaped() {
      && nil == size + 1
      && fwd.Length == bck.Length == equivClass.Length == rep.Length == size
      && fwd != bck && fwd != equivClass && fwd != rep && bck != equivClass && bck != rep && equivClass != rep
    }

    ghost predicate Valid()
      reads this, fwd, bck, cclFlags
      ensures Valid() ==> Shaped() && |labels| == size
    {
      && Shaped()
      && (cclFlags != null ==> cclFlags.Length == size && forall i :: 0 <= i < size ==> !cclFlags[i])
      && |labels| == size
      && Linked(fwd[..], bck[..], labels, nil)
      && Labels(labels, used)
    }

    constructor (n: nat)
      requires n > 0
      ensures Valid() && size == n && used == [] && numEcs == 0
      ensures fresh(fwd) && fresh(bck) && fresh(equivClass) && fresh(rep) && cclFlags == null
    {
      size, nil, numEcs := n, n + 1, 0;
      fwd := new int[n](i => if i == n - 1 then n + 1 else i + 1);
      bck := new int[n](i => if i == 0 then n + 1 else i - 1);
      equivClass := new int[n](_ => n + 1);
      rep := new int[n](_ => n + 1);
      cclFlags := null;
      labels := seq(n, _ => 0);
      used := [];
    }

    /** Break a symbol away from its class. */
    method UniqueChar(sym: nat)
      requires Valid() && sym < size
      modifies fwd, bck, this`labels, this`used
      ensures Valid() && used == old(used) + [{sym}]
    {
      ghost var l, f, b := labels, fwd[..], bck[..];
      assert IsNext(l, sym, f[sym], nil) && IsPrev(l, sym, b[sym], nil);
      if fwd[sym] != nil {
        bck[fwd[sym]] := bck[sym];
      }
      if bck[sym] != nil {
        fwd[bck[sym]] := fwd[sym];
      }
      fwd[sym] := nil;
      bck[sym] := nil;
      labels := Split(labels, {sym});
      used := used + [{sym}];
      assert (fwd[..], bck[..]) == Unhooked(f, b, sym, nil);
      forall x | 0 <= x < size ensures IsNext(labels, x, fwd[..][x], nil) && IsPrev(labels, x, bck[..][x], nil) {
        UnhookedAt(f, b, l, nil, sym, x);
      }
      SplitLabels(l, old(used), {sym});
    }

    /** The position from j on where symbol k stands, or should stand, in the sorted list. */
    method Companion(csyms: seq<int>, j0: nat, k: int) returns (j: nat)
      requires Ascending(csyms) && j0 <= |csyms| && cclFlags != null && |csyms| <= cclFlags.Length
      requires forall j :: j0 <= j < |csyms| && csyms[j] == k ==> !cclFlags[j]
      ensures j0 <= j <= |csyms|
      ensures forall j' :: j0 <= j' < j ==> csyms[j'] < k
      ensures j < |csyms| ==> csyms[j] >= k
    {
      j := j0;
      while j < |csyms|
        invariant j0 <= j <= |csyms|
        invariant forall j' :: j0 <= j' < j ==> csyms[j'] < k
      {
        if csyms[j] > k {
          break;
        }
        if csyms[j] == k && !cclFlags[j] {
          break;
        }
        j := j + 1;
      }
    }

    /** One step of the walk: member k of the block joins the new class or stays in the old one. */
    method Sort(csyms: seq<int>, i: nat, j0: nat, k: nat, oldEc0: int, newEc0: int,
                ghost C: set<int>, ghost h: seq<nat>, ghost was: seq<bool>)
        returns (j: nat, oldEc: int, newEc: int)
      requires Shaped() && cclFlags != null && cclFlags.Length == size
      requires Ascending(csyms) && |csyms| <= size && C == Elements(csyms) && i < j0 <= |csyms|
      requires forall j :: 0 <= j < |csyms| ==> 0 <= csyms[j] < size
      requires |h| == size && k < size && Walk(fwd[..], bck[..], h, C, csyms[i], nil, k, oldEc0, newEc0)
      requires forall j :: i < j < j0 ==> csyms[j] < k
      requires Flags(cclFlags[..], was, csyms, h, i, k)
      requires forall j :: i <= j < |csyms| && h[csyms[j]] == h[csyms[i]] ==> !was[j]
      modifies fwd, bck, cclFlags
      ensures fwd[k] == old(fwd[k]) && k < Onward(h, fwd[k], nil) <= size && (fwd[k] == nil || fwd[k] < size)
      ensures Walk(fwd[..], bck[..], h, C, csyms[i], nil, Onward(h, fwd[k], nil), oldEc, newEc)
      ensures i < j <= |csyms| && forall j' :: i < j' < j ==> csyms[j'] < Onward(h, fwd[k], nil)
      ensures Flags(cclFlags[..], was, csyms, h, i, Onward(h, fwd[k], nil))
    {
      hide Walk, Halved, Unused, Flags;
      ghost var f, b, g := fwd[..], bck[..], cclFlags[..];
      WalkAt(f, b, h, C, csyms[i], nil, k, oldEc0, newEc0);
      FlagsAt(g, was, csyms, h, i, k);
      oldEc, newEc := oldEc0, newEc0;
      j := Companion(csyms, j0, k);
      if j < |csyms| && csyms[j] == k {
        WalkIn(f, b, h, C, csyms[i], nil, k, oldEc, newEc);
        bck[k] := newEc;
        fwd[newEc] := k;
        newEc := k;
        cclFlags[j] := true;
        assert fwd[..] == f[newEc0 := k] && bck[..] == b[k := newEc0] && cclFlags[..] == g[j := true];
        FlagsSet(g, was, csyms, h, i, j, k, Onward(h, f[k], nil));
      } else {
        assert k !in C;
        WalkOut(f, b, h, C, csyms[i], nil, k, oldEc, newEc);
        FlagsKept(g, was, csyms, h, i, k, Onward(h, f[k], nil));
        bck[k] := oldEc;
        if oldEc != nil {
          fwd[oldEc] := k;
        }
        assert fwd[..] == (if oldEc != nil then f[oldEc := k] else f) && bck[..] == b[k := oldEc];
        oldEc := k;
      }
    }

    /** Move the members of the class out of the block of its i-th symbol, flagging those that follow. */
    method SplitBlock(csyms: seq<int>, i: nat, ghost C: set<int>, ghost h: seq<nat>)
      requires Shaped() && cclFlags != null && cclFlags.Length == size
      requires Ascending(csyms) && |csyms| <= size && C == Elements(csyms) && i < |csyms|
      requires forall j :: 0 <= j < |csyms| ==> 0 <= csyms[j] < size
      requires |h| == size && Linked(fwd[..], bck[..], h, nil)
      requires Unused(h, h[csyms[i]] + 1)
      requires forall x :: 0 <= x < csyms[i] && h[x] == h[csyms[i]] ==> x !in C
      requires forall j :: i <= j < |csyms| && h[csyms[j]] == h[csyms[i]] ==> !cclFlags[j]
      modifies fwd, bck, cclFlags
      ensures Linked(fwd[..], bck[..], Halved(h, C, h[csyms[i]]), nil)
      ensures Flags(cclFlags[..], old(cclFlags[..]), csyms, h, i, size)
    {
      hide Walk, Linked, Unused, Halved, Flags;
      var sym := csyms[i];
      LinkedAt(fwd[..], bck[..], h, nil, sym);
      var oldEc, newEc, j, k := bck[sym], sym, i + 1, fwd[sym];
      WalkStarts(fwd[..], bck[..], h, C, sym, nil);
      NoneBetween(fwd[..], bck[..], h, nil, sym);
      FlagsStart(cclFlags[..], csyms, h, i, Onward(h, k, nil));
      while k != 0 && k < size
        invariant k == nil || 0 < k < size
        invariant Walk(fwd[..], bck[..], h, C, sym, nil, Onward(h, k, nil), oldEc, newEc)
        invariant i < j <= |csyms| && forall j' :: i < j' < j ==> csyms[j'] < Onward(h, k, nil)
        invariant Flags(cclFlags[..], old(cclFlags[..]), csyms, h, i, Onward(h, k, nil))
        decreases size - Onward(h, k, nil)
      {
        j, oldEc, newEc := Sort(csyms, i, j, k, oldEc, newEc, C, h, old(cclFlags[..]));
        k := fwd[k];
      }
      ghost var f, b := fwd[..], bck[..];
      WalkAt(f, b, h, C, sym, nil, size, oldEc, newEc);
      WalkEnds(f, b, h, C, sym, nil, oldEc, newEc);
      if bck[sym] != nil || oldEc != bck[sym] {
        bck[sym] := nil;
        fwd[oldEc] := nil;
      }
      fwd[newEc] := nil;
      assert fwd[..] == (if oldEc != nil then f[oldEc := nil] else f)[newEc := nil] && bck[..] == b[sym := nil];
    }

    /** Lower the flags from i on and go to the next symbol whose block is not split yet. */
    method NextUnflagged(csyms: seq<int>, i0: nat, ghost done: set<nat>) returns (i: nat)
      requires cclFlags != null && |csyms| <= cclFlags.Length && i0 <= |csyms|
      requires forall j :: 0 <= j < |csyms| ==> 0 <= csyms[j] < |labels|
      requires Marks(cclFlags[..], csyms, labels, done, i0)
      modifies cclFlags
      ensures i0 <= i <= |csyms| && (i < |csyms| ==> !cclFlags[i])
      ensures Marks(cclFlags[..], csyms, labels, done, i)
      ensures forall j :: i0 <= j < i ==> labels[csyms[j]] in done
    {
      i := i0;
      while i < |csyms| && cclFlags[i]
        invariant i0 <= i <= |csyms| && Marks(cclFlags[..], csyms, labels, done, i)
        invariant forall j :: i0 <= j < i ==> labels[csyms[j]] in done
      {
        cclFlags[i] := false;
        i := i + 1;
      }
    }

    /** Split the blocks of the class's symbols one after the other. */
    method SplitBlocks(csyms: seq<int>)
      requires Valid() && cclFlags != null && Ascending(csyms) && forall j :: 0 <= j < |csyms| ==> 0 <= csyms[j] < size
      modifies fwd, bck, cclFlags
      ensures Linked(fwd[..], bck[..], Split(labels, Elements(csyms)), nil)
      ensures forall j :: 0 <= j < size ==> !cclFlags[j]
    {
      ghost var C, done := Elements(csyms), {};
      PartlyStarts(fwd[..], bck[..], labels, C, nil);
      AscendingFits(csyms, size);
      hide Linked, Partly, Halved, Unused, Labels, Elements;
      var i := 0;
      while i < |csyms|
        invariant 0 <= i <= |csyms| && cclFlags.Length == size
        invariant Linked(fwd[..], bck[..], Partly(labels, C, done), nil)
        invariant i < |csyms| ==> !cclFlags[i]
        invariant forall j :: 0 <= j < i ==> labels[csyms[j]] in done
        invariant Marks(cclFlags[..], csyms, labels, done, i)
      {
        ghost var sym := csyms[i];
        PartlySplits(labels, C, done, sym);
        MarksReady(cclFlags[..], csyms, labels, C, done, i);
        ghost var was := cclFlags[..];
        SplitBlock(csyms, i, C, Partly(labels, C, done));
        MarksMore(cclFlags[..], was, csyms, labels, C, done, i);
        done := done + {labels[sym]};
        i := NextUnflagged(csyms, i + 1, done);
      }
      AllSplit(csyms, labels, done);
    }

    /** Split every block by a sorted class of symbols. */
    method CCLUse(csyms: seq<int>)
      requires Valid() && Ascending(csyms) && forall j :: 0 <= j < |csyms| ==> 0 <= csyms[j] < size
      modifies fwd, bck, cclFlags, this`cclFlags, this`labels, this`used
      ensures Valid() && used == old(used) + [Elements(csyms)] && cclFlags != null
      ensures old(cclFlags) != null ==> cclFlags == old(cclFlags)
      ensures old(cclFlags) == null ==> fresh(cclFlags)
    {
      if cclFlags == null {
        cclFlags := new bool[size](_ => false);
      }
      SplitBlocks(csyms);
      SplitLabels(labels, used, Elements(csyms));
      labels, used := Split(labels, Elements(csyms)), used + [Elements(csyms)];
    }

    /** Number the blocks, in the order of their least symbols. */
    method BuildECs() returns (n: nat)
      requires Valid()
      modifies equivClass, rep, this`numEcs
      ensures Valid() && n == numEcs == old(numEcs) + Heads(labels, size)
      ensures forall x :: 0 <= x < size ==> Numbered(labels, old(numEcs), x, equivClass[x], rep[x])
      ensures forall x, y :: 0 <= x < size && 0 <= y < size ==> (equivClass[x] == equivClass[y] <==> Same(used, x, y))
    {
      hide Linked, Labels, NumberedTo, Numbered, Same;
      NumberedToStart(labels, numEcs, equivClass[..], rep[..]);
      var i := 0;
      while i < size
        invariant 0 <= i <= size && Valid() && numEcs == old(numEcs) + Heads(labels, i)
        invariant NumberedTo(labels, old(numEcs), equivClass[..], rep[..], i)
      {
        hide IsLeast;
        HeadHasNoPrev(fwd[..], bck[..], labels, nil, i);
        ghost var ecs, reps := equivClass[..], rep[..];
        if bck[i] == nil {
          NumberBlock(i, old(numEcs));
        }
        NumberedToNext(labels, old(numEcs), ecs, reps, equivClass[..], rep[..], i);
        i := i + 1;
      }
      NumberedToEnd(labels, old(numEcs), equivClass[..], rep[..]);
      forall x, y | 0 <= x < size && 0 <= y < size ensures equivClass[x] == equivClass[y] <==> Same(used, x, y) {
        NumberedSame(labels, used, old(numEcs), x, equivClass[x], rep[x], y, equivClass[y], rep[y]);
      }
      n := numEcs;
    }

    method NumberBlock(i: nat, ghost base: nat)
      requires Valid() && i < size && bck[i] == nil && numEcs == base + Heads(labels, i)
      modifies equivClass, rep, this`numEcs
      ensures Valid() && numEcs == old(numEcs) + 1
      ensures forall x :: i <= x < size && labels[x] == labels[i] ==> Numbered(labels, base, x, equivClass[x], rep[x])
      ensures forall x :: 0 <= x < size && labels[x] != labels[i] ==>
              equivClass[x] == old(equivClass[x]) && rep[x] == old(rep[x])
    {
      equivClass[i] := numEcs;
      numEcs := numEcs + 1;
      rep[i] := i;
      assert IsPrev(labels, i, bck[..][i], nil);
      var j := fwd[i];
      ghost var J := Onward(labels, j, nil);
      assert IsNext(labels, i, fwd[..][i], nil);
      while j != nil
        invariant i < J <= size && j == (if J == size then nil else J)
        invariant J < size ==> labels[J] == labels[i]
        invariant equivClass[i] == base + Heads(labels, i) && numEcs == old(numEcs) + 1
        invariant forall x :: i <= x < J && labels[x] == labels[i] ==> equivClass[x] == equivClass[i] && rep[x] == i
        invariant forall x :: 0 <= x < size && labels[x] != labels[i] ==>
                  equivClass[x] == old(equivClass[x]) && rep[x] == old(rep[x])
        decreases size - J
      {
        assert IsNext(labels, j, fwd[..][j], nil);
        equivClass[j] := equivClass[i];
        rep[j] := i;
        j := fwd[j];
        J := Onward(labels, j, nil);
      }
    }

    /** Replace a class of symbols by the numbers of the blocks it consists of. */
    method ConvertCCL(csyms: seq<int>, ghost base: nat) returns (ecs: seq<int>)
      requires Valid() && forall x :: 0 <= x < size ==> Numbered(labels, base, x, equivClass[x], rep[x])
      requires Ascending(csyms) && (forall j :: 0 <= j < |csyms| ==> 0 <= csyms[j] < size)
      ensures Ascending(ecs)
      ensures forall x :: 0 <= x < size ==> (rep[x] in csyms <==> equivClass[x] in ecs)
      ensures Elements(csyms) in used ==> forall x :: 0 <= x < size ==> (x in csyms <==> equivClass[x] in ecs)
      ensures forall c :: c in ecs ==> base <= c < base + Heads(labels, size)
    {
      hide Numbered, Heads, Same, Labels, Linked, Elements, EquivClass.Valid;
      ecs := [];
      for i := 0 to |csyms|
        invariant ecs == Converted(csyms[..i], equivClass[..], rep[..])
      {
        assert csyms[..i + 1][..i] == csyms[..i];
        if rep[csyms[i]] == csyms[i] {
          ecs := ecs + [equivClass[csyms[i]]];
        }
      }
      assert csyms[..|csyms|] == csyms;
      LabelsHold();
      ConvertedAscends(labels, used, base, csyms, equivClass[..], rep[..]);
      forall x | 0 <= x < size
        ensures rep[x] in csyms <==> equivClass[x] in ecs
        ensures Elements(csyms) in used ==> (x in csyms <==> equivClass[x] in ecs)
      {
        ConvertedStands(labels, used, base, csyms, equivClass[..], rep[..], x);
      }
    }

    lemma LabelsHold()
      requires Valid()
      ensures Labels(labels, used) && |labels| == size
    {
    }
  }
}
