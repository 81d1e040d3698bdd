/** An automaton over classes of symbols: telling the classes about every transition, converting the
    transitions to classes, follow sets, and the classes of classes of one deterministic state. */
module Dfa {
  import opened Seqs
  import N = Nfa
  import E = EquivClasses
  import opened DfaSpec

  ghost predicate WellFormed(orig: N.Automaton) {
    && N.Closed(orig)
    && forall n :: 0 <= n < |orig| ==> TransFormed(orig[n].trans)
  }

  ghost predicate TransFormed(t: N.Trans) {
    && (t.Char? ==> 0 <= t.sym < N.NUM_SYM)
    && (t.Class? ==> Ascending(t.syms) && forall i :: 0 <= i < |t.syms| ==> 0 <= t.syms[i] < N.NUM_SYM)
  }

  /** The equivalence classes have been told about a transition. */
  ghost predicate UsedBy(used: seq<set<int>>, t: N.Trans) {
    && (t.Char? ==> {t.sym} in used)
    && (t.Class? ==> Elements(t.syms) in used)
  }

  lemma UsedMore(used: seq<set<int>>, C: set<int>, t: N.Trans)
    requires UsedBy(used, t)
    ensures UsedBy(used + [C], t)
  {
  }

  /** Tell the equivalence classes about every transition. */
  method UseAll(orig: N.Automaton) returns (e: E.EquivClass)
    requires WellFormed(orig)
    ensures fresh(e) && fresh(e.fwd) && fresh(e.bck) && fresh(e.equivClass) && fresh(e.rep)
    ensures e.Valid() && e.size == N.NUM_SYM && e.numEcs == 0
    ensures forall n :: 0 <= n < |orig| ==> UsedBy(e.used, orig[n].trans)
  {
    e := new E.EquivClass(N.NUM_SYM);
    for n := 0 to |orig|
      invariant fresh(e) && fresh(e.fwd) && fresh(e.bck) && fresh(e.equivClass) && fresh(e.rep)
      invariant e.cclFlags != null ==> fresh(e.cclFlags)
      invariant e.Valid() && e.size == N.NUM_SYM && e.numEcs == 0
      invariant forall k :: 0 <= k < n ==> UsedBy(e.used, orig[k].trans)
    {
      ghost var used := e.used;
      match orig[n].trans {
        case Epsilon =>
        case Char(c) =>
          e.UniqueChar(c);
        case Class(_, syms) =>
          e.CCLUse(syms);
      }
      forall k | 0 <= k < n ensures UsedBy(e.used, orig[k].trans) {
        if e.used != used {
          UsedMore(used, e.used[|used|], orig[k].trans);
        }
      }
      assert UsedBy(e.used, orig[n].trans) by {
        assert orig[n].trans.Epsilon? || e.used[|used|] in e.used;
      }
    }
  }

  /** Convert one transition to the numbered classes. */
  method Convert(e: E.EquivClass, ec: Classes, orig: N.Trans) returns (t: N.Trans)
    requires e.Valid() && e.size == N.NUM_SYM && Proper(ec)
    requires ec == Classes(e.equivClass[..], e.rep[..], E.Heads(e.labels, e.size))
    requires forall x :: 0 <= x < e.size ==> E.Numbered(e.labels, 0, x, e.equivClass[x], e.rep[x])
    requires TransFormed(orig) && UsedBy(e.used, orig)
    ensures Stands(ec, t, orig)
  {
    hide E.Heads;
    t := orig;
    match orig {
      case Epsilon =>
      case Char(c) =>
        AloneStands(e, ec, c);
      case Class(negated, syms) =>
        hide E.EquivClass.Valid, E.Numbered, E.Same;
        var ecs := e.ConvertCCL(syms, 0);
        t := N.Class(negated, ecs);
        assert forall x :: 0 <= x < N.NUM_SYM ==> ec.of[x] == e.equivClass[x];
        assert forall i :: 0 <= i < |ecs| ==> ecs[i] in ecs;
    }
  }

  /** Number the classes of symbols and convert every class of the automaton to them. */
  method Compile(orig: N.Automaton) returns (ec: Classes, nfa: N.Automaton)
    requires WellFormed(orig)
    ensures Compiled(ec, nfa, orig)
  {
    hide E.Heads;
    var e := UseAll(orig);
    var count := e.BuildECs();
    ec := Classes(e.equivClass[..], e.rep[..], count);
    hide E.EquivClass.Valid, E.Numbered, E.Same, Stands, UsedBy;
    ProperClasses(e, ec);
    nfa := [];
    for n := 0 to |orig|
      modifies {}
      invariant |nfa| == n
      invariant forall k :: 0 <= k < n ==>
        Stands(ec, nfa[k].trans, orig[k].trans) && nfa[k].accept == orig[k].accept && nfa[k].next == orig[k].next
    {
      var t := Convert(e, ec, orig[n].trans);
      nfa := nfa + [orig[n].(trans := t)];
    }
  }

  lemma ProperClasses(e: E.EquivClass, ec: Classes)
    requires e.Valid() && e.size == N.NUM_SYM && ec == Classes(e.equivClass[..], e.rep[..], E.Heads(e.labels, e.size))
    requires forall x :: 0 <= x < e.size ==> E.Numbered(e.labels, 0, x, e.equivClass[x], e.rep[x])
    ensures Proper(ec)
  {
    forall x | 0 <= x < N.NUM_SYM ensures 0 <= ec.of[x] < ec.count {
      var r := e.rep[x];
      assert E.Numbered(e.labels, 0, x, e.equivClass[x], r);
      assert E.IsLeast(e.labels, r, r);
      E.HeadsAscend(e.labels, r, e.size);
    }
    assert 0 <= ec.of[0] < ec.count;
  }

  /** A symbol with its own transition is a class of its own. */
  lemma AloneStands(e: E.EquivClass, ec: Classes, c: int)
    requires e.Valid() && e.size == N.NUM_SYM && Proper(ec) && ec.of == e.equivClass[..] && ec.rep == e.rep[..]
    requires forall x :: 0 <= x < e.size ==> E.Numbered(e.labels, 0, x, e.equivClass[x], e.rep[x])
    requires 0 <= c < N.NUM_SYM && {c} in e.used
    ensures Stands(ec, N.Char(c), N.Char(c))
  {
    forall x | 0 <= x < N.NUM_SYM ensures E.Same(e.used, x, c) <==> x == c {
      var i :| 0 <= i < |e.used| && e.used[i] == {c};
      assert E.Same(e.used, x, c) ==> (x in e.used[i] <==> c in e.used[i]);
    }
    forall x | 0 <= x < N.NUM_SYM ensures ec.of[x] == ec.of[c] <==> x == c {
      E.NumberedSame(e.labels, e.used, 0, x, e.equivClass[x], e.rep[x], c, e.equivClass[c], e.rep[c]);
    }
    var r := e.rep[c];
    assert E.Numbered(e.labels, 0, c, e.equivClass[c], r);
    assert e.labels[r] == e.labels[c] <==> E.Same(e.used, r, c);
  }

  // ---------------------------------------------------------------- one state

  /** The search of a sorted list of classes. */
  method Holds(syms: seq<int>, c: int, negated: bool) returns (found: bool)
    requires Ascending(syms)
    ensures found <==> c in syms
  {
    if negated {
      var j := 0;
      while j < |syms|
        invariant 0 <= j <= |syms| && forall k :: 0 <= k < j ==> syms[k] < c
      {
        if syms[j] >= c {
          break;
        }
        j := j + 1;
      }
      found := !(j >= |syms| || syms[j] > c);
    } else {
      found := false;
      for j := 0 to |syms|
        invariant !found && forall k :: 0 <= k < j ==> syms[k] < c
      {
        if syms[j] > c {
          break;
        }
        if syms[j] == c {
          found := true;
          break;
        }
      }
    }
  }

  ghost predicate Sortable(nfa: N.Automaton) {
    && N.Closed(nfa)
    && forall n :: 0 <= n < |nfa| && nfa[n].trans.Class? ==> Ascending(nfa[n].trans.syms)
  }

  /** The states that a list of states leads to on a class. */
  method SymFollowSet(ec: Classes, nfa: N.Automaton, nfas: seq<nat>, c: int) returns (ns: seq<nat>)
    requires Proper(ec) && Sortable(nfa) && forall i :: 0 <= i < |nfas| ==> nfas[i] < |nfa|
    requires forall i :: 0 <= i < |nfas| && nfa[nfas[i]].trans.Char? ==> 0 <= nfa[nfas[i]].trans.sym < N.NUM_SYM
    ensures Elements(ns) == FollowClass(ec, nfa, Elements(nfas), c)
  {
    ns := [];
    for i := 0 to |nfas|
      invariant forall t :: t in ns <==>
                exists k :: 0 <= k < i && TakesClass(ec, nfa[nfas[k]].trans, c) && t in nfa[nfas[k]].next
    {
      var n := nfa[nfas[i]];
      var takes := false;
      match n.trans {
        case Class(negated, syms) =>
          var found := Holds(syms, c, negated);
          takes := found != negated;
        case Epsilon =>
        case Char(sym) =>
          if ec.rep[sym] == sym {
            takes := c == ec.of[sym];
          }
      }
      assert takes <==> TakesClass(ec, nfa[nfas[i]].trans, c);
      if takes {
        ns := ns + n.next;
      }
    }
    forall t ensures t in Elements(ns) <==> t in FollowClass(ec, nfa, Elements(nfas), c) {
    }
  }

  /** Classes of classes: split the classes by each transition of the list. */
  method SymPartition(ec: Classes, nfa: N.Automaton, nfas: seq<nat>) returns (reps: seq<int>, byteXtion: bool)
    requires Proper(ec) && Sortable(nfa) && forall i :: 0 <= i < |nfas| ==> nfas[i] < |nfa|
    requires forall i :: 0 <= i < |nfas| ==> InClasses(ec, nfa[nfas[i]].trans)
    ensures |reps| == ec.count
    ensures forall c :: 0 <= c < ec.count ==> 0 <= reps[c] < ec.count && Alike(ec, nfa, nfas, c, reps[c])
    ensures byteXtion <==> exists i :: 0 <= i < |nfas| && ByteTrans(nfa[nfas[i]].trans)
  {
    var meta := new E.EquivClass(ec.count);
    byteXtion := false;
    for i := 0 to |nfas|
      invariant fresh(meta) && fresh(meta.fwd) && fresh(meta.bck) && fresh(meta.equivClass) && fresh(meta.rep)
      invariant meta.cclFlags != null ==> fresh(meta.cclFlags)
      invariant meta.Valid() && meta.size == ec.count && meta.numEcs == 0
      invariant forall k :: 0 <= k < i ==> Splits(ec, meta.used, nfa[nfas[k]].trans)
      invariant byteXtion <==> exists k :: 0 <= k < i && ByteTrans(nfa[nfas[k]].trans)
    {
      ghost var used := meta.used;
      var t := nfa[nfas[i]].trans;
      assert InClasses(ec, t);
      match t {
        case Epsilon =>
          EpsilonSplits(ec, used);
        case Char(sym) =>
          if ec.rep[sym] == sym {
            meta.UniqueChar(ec.of[sym]);
          }
          CharSplits(ec, used, sym);
          if sym != N.SYM_BOL && sym != N.SYM_EOL {
            byteXtion := true;
          }
        case Class(negated, syms) =>
          meta.CCLUse(syms);
          ClassSplits(ec, used, negated, syms);
          byteXtion := true;
      }
      forall k | 0 <= k < i ensures Splits(ec, meta.used, nfa[nfas[k]].trans) {
        if meta.used != used {
          SplitsMore(ec, used, meta.used[|used|], nfa[nfas[k]].trans);
        }
      }
    }
    ghost var used := meta.used;
    var count := meta.BuildECs();
    reps := meta.rep[..];
    forall c | 0 <= c < ec.count ensures 0 <= reps[c] < ec.count && Alike(ec, nfa, nfas, c, reps[c]) {
      assert E.Numbered(meta.labels, 0, c, meta.equivClass[c], meta.rep[c]);
      assert E.Same(used, c, reps[c]);
    }
  }

  /** A converted transition stays within the classes. */
  ghost predicate InClasses(ec: Classes, t: N.Trans) {
    && (t.Char? ==> 0 <= t.sym < N.NUM_SYM)
    && (t.Class? ==> Ascending(t.syms) && forall i :: 0 <= i < |t.syms| ==> 0 <= t.syms[i] < ec.count)
  }

  /** Classes that the sets used do not tell apart are not told apart by the transition. */
  ghost predicate Splits(ec: Classes, used: seq<set<int>>, t: N.Trans) {
    forall c, r :: E.Same(used, c, r) ==> (TakesClass(ec, t, c) <==> TakesClass(ec, t, r))
  }

  lemma SameLess(used: seq<set<int>>, C: set<int>, c: int, r: int)
    requires E.Same(used + [C], c, r)
    ensures E.Same(used, c, r) && (c in C <==> r in C)
  {
    assert (used + [C])[|used|] == C;
    assert forall i :: 0 <= i < |used| ==> (used + [C])[i] == used[i];
  }

  lemma SplitsMore(ec: Classes, used: seq<set<int>>, C: set<int>, t: N.Trans)
    requires Splits(ec, used, t)
    ensures Splits(ec, used + [C], t)
  {
    forall c, r | E.Same(used + [C], c, r) ensures TakesClass(ec, t, c) <==> TakesClass(ec, t, r) {
      SameLess(used, C, c, r);
    }
  }

  lemma EpsilonSplits(ec: Classes, used: seq<set<int>>)
    ensures Splits(ec, used, N.Epsilon)
  {
  }

  lemma CharSplits(ec: Classes, used: seq<set<int>>, sym: int)
    requires Proper(ec) && 0 <= sym < N.NUM_SYM
    ensures if ec.rep[sym] == sym then Splits(ec, used + [{ec.of[sym]}], N.Char(sym)) else Splits(ec, used, N.Char(sym))
  {
    if ec.rep[sym] == sym {
      var C := {ec.of[sym]};
      forall c, r | E.Same(used + [C], c, r)
          ensures TakesClass(ec, N.Char(sym), c) <==> TakesClass(ec, N.Char(sym), r) {
        SameLess(used, C, c, r);
      }
    }
  }

  lemma ClassSplits(ec: Classes, used: seq<set<int>>, negated: bool, syms: seq<int>)
    ensures Splits(ec, used + [Elements(syms)], N.Class(negated, syms))
  {
    var C, t := Elements(syms), N.Class(negated, syms);
    forall c, r | E.Same(used + [C], c, r) ensures TakesClass(ec, t, c) <==> TakesClass(ec, t, r) {
      SameLess(used, C, c, r);
      assert (c in C <==> c in syms) && (r in C <==> r in syms);
    }
  }
}
