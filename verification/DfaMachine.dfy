/** The machine as an object: its cache of states, and transitions filled in when first asked for. */
module DfaMachines {
  import opened Seqs
  import N = Nfa
  import opened DfaSpec
  import Dfa

  ghost predicate ClosureOf(nfa: N.Automaton, s: nat, list: seq<nat>) {
    s < |nfa| && Distinct(list) && Elements(list) == N.Closure(nfa, {s})
  }

  lemma CompiledSortable(ec: Classes, nfa: N.Automaton, orig: N.Automaton)
    requires Compiled(ec, nfa, orig)
    ensures Dfa.Sortable(nfa)
    ensures forall n :: 0 <= n < |nfa| ==> Dfa.InClasses(ec, nfa[n].trans)
  {
    forall n | 0 <= n < |nfa|
      ensures Dfa.InClasses(ec, nfa[n].trans) && (nfa[n].trans.Class? ==> Ascending(nfa[n].trans.syms))
    {
      assert Stands(ec, nfa[n].trans, orig[n].trans);
    }
  }

  lemma FollowWithin(ec: Classes, nfa: N.Automaton, S: set<nat>, c: int)
    requires N.Closed(nfa)
    ensures N.Within(nfa, FollowClass(ec, nfa, S, c))
  {
  }

  lemma ClosureListed(nfa: N.Automaton, S: set<nat>, list: seq<nat>)
    requires Ascending(list) && Elements(list) == N.Closure(nfa, S)
    ensures Listed(nfa, list)
  {
    forall i | 0 <= i < |list| ensures list[i] < |nfa| && N.Significant(nfa[list[i]]) {
      assert list[i] in Elements(list);
    }
  }

  /** What a computed slot stands for, as a set of automaton states. */
  ghost function Meaning(states: seq<State>, to: Slot): set<nat>
    requires to.To? ==> to.n < |states|
  {
    if to.To? then Elements(states[to.n].nfas) else {}
  }

  /** A transition on the class of a symbol is one step of the direct simulation. */
  lemma LeadsToNext(ec: Classes, nfa: N.Automaton, orig: N.Automaton, states: seq<State>, nfas: seq<nat>, sym: int,
      to: Slot)
    requires Compiled(ec, nfa, orig) && 0 <= sym < N.NUM_SYM && Leads(ec, nfa, states, nfas, ec.of[sym], to)
    ensures Meaning(states, to) == N.Next(orig, Elements(nfas), sym)
  {
    FollowClassIs(ec, nfa, orig, Elements(nfas), sym);
    ClosureSame(ec, nfa, orig, N.Follow(orig, Elements(nfas), sym));
    if to.Jam? {
      assert N.Closure(orig, {}) == {};
    }
  }

  class Machine {
    const nfa: N.Automaton
    const ec: Classes
    const first: nat
    ghost const orig: N.Automaton
    var states: seq<State>
    var cache: map<string, nat>
    var closures: map<nat, seq<nat>>
    var start: nat

    ghost predicate Ready()
      reads this
    {
      && Compiled(ec, nfa, orig) && first < |nfa|
      && Good(ec, nfa, states, cache)
      && forall s :: s in closures ==> ClosureOf(nfa, s, closures[s])
    }

    ghost predicate Valid()
      reads this
    {
      Ready() && start < |states| && Elements(states[start].nfas) == N.Closure(orig, {first})
    }

    constructor (ec: Classes, nfa: N.Automaton, first: nat, ghost orig: N.Automaton)
      requires Compiled(ec, nfa, orig) && first < |nfa|
      ensures Valid() && this.ec == ec && this.nfa == nfa && this.orig == orig && this.first == first
    {
      this.ec, this.nfa, this.first, this.orig := ec, nfa, first, orig;
      states, cache, closures, start := [], map[], map[], 0;
      new;
      var list := EpsilonClosure([first]);
      start := StateSetToDFAState(list);
      ClosureSame(ec, nfa, orig, {first});
      assert Elements([first]) == {first};
    }

    /** The closure of one state, computed once. */
    method StateClosure(s: nat) returns (list: seq<nat>)
      requires Ready() && s < |nfa|
      modifies this`closures
      ensures Ready() && ClosureOf(nfa, s, list) && s in closures && closures[s] == list
    {
      if s in closures {
        return closures[s];
      }
      list := N.EpsilonClosure(nfa, s);
      closures := closures[s := list];
    }

    /** The closure of a list of states, sorted by ID. */
    method EpsilonClosure(ns: seq<nat>) returns (list: seq<nat>)
      requires Ready() && forall i :: 0 <= i < |ns| ==> ns[i] < |nfa|
      modifies this`closures
      ensures Ready()
      ensures Listed(nfa, list) && Elements(list) == N.Closure(nfa, Elements(ns))
    {
      hide N.Closure, Good, Compiled;
      var closure := [];
      ClosureOfNone(nfa);
      for i := 0 to |ns|
        invariant Ready() && Distinct(closure) && Elements(closure) == N.Closure(nfa, Elements(ns[..i]))
      {
        var one := StateClosure(ns[i]);
        closure := Merge(closure, one);
        assert Elements(ns[..i + 1]) == Elements(ns[..i]) + {ns[i]};
        N.ClosureUnion(nfa, Elements(ns[..i]), {ns[i]});
      }
      assert ns[..|ns|] == ns;
      list := N.Sorted(closure);
      assert Elements(list) == Elements(closure);
      ClosureListed(nfa, Elements(ns), list);
    }

    /** The state for a list of automaton states: the cached one, or a new one. */
    method StateSetToDFAState(list: seq<nat>) returns (d: nat)
      requires Ready() && Listed(nfa, list)
      modifies this`states, this`cache
      ensures Ready() && Extends(old(states), states) && old(states) <= states && d < |states| && states[d].nfas == list
      ensures N.Tag(nfa, list) in cache && cache[N.Tag(nfa, list)] == d
      ensures N.Tag(nfa, list) in old(cache) ==> states == old(states) && cache == old(cache)
    {
      var tag := N.Tag(nfa, list);
      if tag in cache {
        HitIsEqual(ec, nfa, states, cache, list);
        return cache[tag];
      }
      var accept := Accepting(nfa, list);
      CompiledSortable(ec, nfa, orig);
      var reps, byteXtion := Dfa.SymPartition(ec, nfa, list);
      var state := State(list, accept, reps, byteXtion, seq(ec.count, _ => Uncomputed));
      d := |states|;
      StateKeeps(ec, nfa, states, cache, state);
      states, cache := states + [state], cache[tag := d];
    }

    /** Compute the transition on a class through its representative, and remember it for both. */
    method ComputeXtion(s: nat, c: nat) returns (to: Slot)
      requires Ready() && s < |states| && c < ec.count && states[s].xtions[c] == Uncomputed
      modifies this`states, this`cache, this`closures
      ensures Ready() && Extends(old(states), states)
      ensures Leads(ec, nfa, states, states[s].nfas, c, to) && states[s].xtions[c] == to
      ensures 0 <= states[s].reps[c] < ec.count && states[s].xtions[states[s].reps[c]] == to
    {
      hide Leads, Good, Compiled, FollowClass;
      ghost var states0 := states;
      assert StateOk(ec, nfa, states[s]);
      var r := states[s].reps[c];
      ghost var nfas := states[s].nfas;
      SameBothWays(ec, nfa, states[s], c);
      if states[s].xtions[r] != Uncomputed {
        to := states[s].xtions[r];
        SlotLeads(ec, nfa, states, cache, s, r);
        LeadsAlike(ec, nfa, states, nfas, c, r, to);
        XtionKeeps(ec, nfa, states, cache, s, c, to);
        states := WithXtion(states, s, c, to);
        LeadsExtends(ec, nfa, states0, states, nfas, c, to);
        return;
      }
      to := Target(s, r);
      ghost var states1 := states;
      assert Grows(states0[s], states[s]);
      AddXtion(s, r, to);
      ghost var states2 := states;
      ExtendsTransitive(states0, states1, states2);
      if c != r {
        LeadsAlike(ec, nfa, states, nfas, c, r, to);
        assert Grows(states0[s], states[s]);
        AddXtion(s, c, to);
        ExtendsTransitive(states0, states2, states);
      }
    }

    method AddXtion(s: nat, c: nat, to: Slot)
      requires Ready() && s < |states| && c < ec.count && Leads(ec, nfa, states, states[s].nfas, c, to)
      requires states[s].xtions[c] == Uncomputed || states[s].xtions[c] == to
      modifies this`states
      ensures Ready() && Extends(old(states), states) && states[s].xtions[c] == to
      ensures Leads(ec, nfa, states, states[s].nfas, c, to) && states == WithXtion(old(states), s, c, to)
    {
      XtionKeeps(ec, nfa, states, cache, s, c, to);
      LeadsExtends(ec, nfa, states, WithXtion(states, s, c, to), states[s].nfas, c, to);
      states := WithXtion(states, s, c, to);
    }

    /** Where a state goes on a class, leaving the state's slots as they are. */
    method Target(s: nat, c: nat) returns (to: Slot)
      requires Ready() && s < |states| && c < ec.count
      modifies this`states, this`cache, this`closures
      ensures Ready() && Extends(old(states), states) && states[s] == old(states[s])
      ensures Leads(ec, nfa, states, states[s].nfas, c, to)
    {
      hide Good, N.Closure;
      CompiledSortable(ec, nfa, orig);
      assert StateOk(ec, nfa, states[s]);
      var ns := Dfa.SymFollowSet(ec, nfa, states[s].nfas, c);
      FollowWithin(ec, nfa, Elements(states[s].nfas), c);
      hide StateOk, Compiled, FollowClass;
      assert forall i :: 0 <= i < |ns| ==> ns[i] in Elements(ns);
      if ns != [] {
        var list := EpsilonClosure(ns);
        var d := StateSetToDFAState(list);
        to := To(d);
        assert ns[0] in Elements(ns);
      } else {
        to := Jam;
        assert Extends(states, states);
      }
    }

    /** The transition of a state on a class. */
    method Xtion(s: nat, c: nat) returns (to: Slot)
      requires Ready() && s < |states| && c < ec.count
      modifies this`states, this`cache, this`closures
      ensures Ready() && Extends(old(states), states)
      ensures Leads(ec, nfa, states, states[s].nfas, c, to) && states[s].xtions[c] == to
    {
      if states[s].xtions[c] == Uncomputed {
        to := ComputeXtion(s, c);
      } else {
        to := states[s].xtions[c];
        SlotLeads(ec, nfa, states, cache, s, c);
      }
    }

    /** A transition on a symbol, in terms of the automaton before conversion. */
    method Advance(s: nat, sym: nat) returns (to: Slot)
      requires Valid() && s < |states| && sym < N.NUM_SYM
      modifies this`states, this`cache, this`closures
      ensures Valid() && Extends(old(states), states)
      ensures to != Uncomputed && (to.To? ==> to.n < |states|)
      ensures Meaning(states, to) == N.Next(orig, Elements(old(states[s].nfas)), sym)
      ensures to.To? ==> states[to.n].accept == N.Accepts(orig, Meaning(states, to))
      ensures !old(states[s].byteXtion) && sym < 256 ==> to == Jam
    {
      hide Good, N.Closure;
      to := Xtion(s, ec.of[sym]);
      assert Grows(old(states)[s], states[s]) && Grows(old(states)[start], states[start]);
      LeadsToNext(ec, nfa, orig, states, states[s].nfas, sym, to);
      if to.To? {
        assert StateOk(ec, nfa, states[to.n]);
        AcceptsSame(ec, nfa, orig, Meaning(states, to));
      }
      if !states[s].byteXtion && sym < 256 {
        TerminalJams(ec, nfa, orig, states[s], sym);
      }
    }
  }

  lemma ClosureOfNone(nfa: N.Automaton)
    ensures N.Closure(nfa, Elements([])) == Elements([])
  {
  }

  lemma SameBothWays(ec: Classes, nfa: N.Automaton, d: State, c: int)
    requires StateOk(ec, nfa, d) && N.Closed(nfa) && 0 <= c < ec.count
    ensures 0 <= d.reps[c] < ec.count
    ensures FollowClass(ec, nfa, Elements(d.nfas), c) == FollowClass(ec, nfa, Elements(d.nfas), d.reps[c])
  {
    AlikeFollow(ec, nfa, d.nfas, c, d.reps[c]);
  }

  lemma LeadsAlike(ec: Classes, nfa: N.Automaton, states: seq<State>, nfas: seq<nat>, c: int, r: int, to: Slot)
    requires N.Closed(nfa) && Leads(ec, nfa, states, nfas, r, to)
    requires FollowClass(ec, nfa, Elements(nfas), c) == FollowClass(ec, nfa, Elements(nfas), r)
    ensures Leads(ec, nfa, states, nfas, c, to)
  {
  }

  lemma SlotLeads(ec: Classes, nfa: N.Automaton, states: seq<State>, cache: map<string, nat>, s: nat, c: nat)
    requires Good(ec, nfa, states, cache) && s < |states| && c < ec.count && states[s].xtions[c] != Uncomputed
    ensures Leads(ec, nfa, states, states[s].nfas, c, states[s].xtions[c])
  {
    assert Memoised(ec, nfa, states, states[s]);
  }

  /** Append the states of one list that the other does not have. */
  method Merge(closure: seq<nat>, one: seq<nat>) returns (r: seq<nat>)
    requires Distinct(closure)
    ensures Distinct(r) && Elements(r) == Elements(closure) + Elements(one)
  {
    r := closure;
    for j := 0 to |one|
      invariant Distinct(r) && forall x :: x in r <==> x in closure || x in one[..j]
    {
      if one[j] !in r {
        r := r + [one[j]];
      }
    }
  }

  /** The accepting numbers of a list of states. */
  method Accepting(nfa: N.Automaton, list: seq<nat>) returns (accept: set<int>)
    requires forall i :: 0 <= i < |list| ==> list[i] < |nfa|
    ensures accept == N.Accepts(nfa, Elements(list))
  {
    accept := {};
    for i := 0 to |list|
      invariant accept == N.Accepts(nfa, Elements(list[..i]))
    {
      ghost var before := Elements(list[..i]);
      assert Elements(list[..i + 1]) == before + {list[i]};
      var acc := nfa[list[i]].accept;
      if acc != N.NO_ACCEPT {
        accept := accept + {acc};
      }
    }
    assert list[..|list|] == list;
  }
}
