/** Deterministic states over equivalence classes of symbols: what a state's fields must mean. */
module DfaSpec {
  import opened Seqs
  import N = Nfa

  /** The equivalence classes the automaton was compiled with: the class and the representative of
      each symbol. */
  datatype Classes = Classes(of: seq<int>, rep: seq<int>, count: nat)

  ghost predicate Proper(ec: Classes) {
    && |ec.of| == |ec.rep| == N.NUM_SYM && ec.count > 0
    && forall x :: 0 <= x < N.NUM_SYM ==> 0 <= ec.of[x] < ec.count
  }

  // ---------------------------------------------------------------- conversion

  /** A transition whose class lists equivalence classes stands for one that lists symbols. */
  ghost predicate Stands(ec: Classes, t: N.Trans, orig: N.Trans)
    requires Proper(ec)
  {
    match orig
    case Epsilon => t == orig
    case Char(c) =>
      && t == orig && 0 <= c < N.NUM_SYM && ec.rep[c] == c
      && forall x :: 0 <= x < N.NUM_SYM ==> (ec.of[x] == ec.of[c] <==> x == c)
    case Class(negated, syms) =>
      && t.Class? && t.negated == negated && Ascending(t.syms)
      && (forall i :: 0 <= i < |t.syms| ==> 0 <= t.syms[i] < ec.count)
      && forall x :: 0 <= x < N.NUM_SYM ==> (x in syms <==> ec.of[x] in t.syms)
  }

  /** nfa is the automaton after its classes have been converted. */
  ghost predicate Compiled(ec: Classes, nfa: N.Automaton, orig: N.Automaton)
    ensures Compiled(ec, nfa, orig) ==> Proper(ec) && N.Closed(nfa) && N.Closed(orig) && |nfa| == |orig|
  {
    && Proper(ec) && |nfa| == |orig| && N.Closed(nfa) && N.Closed(orig)
    && forall n :: 0 <= n < |nfa| ==>
         Stands(ec, nfa[n].trans, orig[n].trans) && nfa[n].accept == orig[n].accept && nfa[n].next == orig[n].next
  }

  /** Does a converted transition take a class? */
  predicate TakesClass(ec: Classes, t: N.Trans, c: int) {
    match t
    case Epsilon => false
    case Char(s) => 0 <= s < |ec.rep| && s < |ec.of| && ec.rep[s] == s && ec.of[s] == c
    case Class(negated, syms) => (c in syms) != negated
  }

  lemma TakesClassIs(ec: Classes, t: N.Trans, orig: N.Trans, sym: int)
    requires Proper(ec) && Stands(ec, t, orig) && 0 <= sym < N.NUM_SYM
    ensures TakesClass(ec, t, ec.of[sym]) <==> N.Takes(orig, sym)
  {
  }

  ghost function FollowClass(ec: Classes, nfa: N.Automaton, S: set<nat>, c: int): set<nat>
    requires N.Closed(nfa)
  {
    set n, t | n in S && n < |nfa| && TakesClass(ec, nfa[n].trans, c) && t in nfa[n].next :: t
  }

  /** Following the class of a symbol is following the symbol. */
  lemma FollowClassIs(ec: Classes, nfa: N.Automaton, orig: N.Automaton, S: set<nat>, sym: int)
    requires Compiled(ec, nfa, orig) && 0 <= sym < N.NUM_SYM
    ensures FollowClass(ec, nfa, S, ec.of[sym]) == N.Follow(orig, S, sym)
  {
    forall n | n in S && n < |nfa| ensures TakesClass(ec, nfa[n].trans, ec.of[sym]) <==> N.Takes(orig[n].trans, sym) {
      TakesClassIs(ec, nfa[n].trans, orig[n].trans, sym);
    }
  }

  lemma EpsReachSame(ec: Classes, nfa: N.Automaton, orig: N.Automaton, s: nat, t: nat)
    requires Compiled(ec, nfa, orig)
    ensures N.EpsReach(nfa, s, t) <==> N.EpsReach(orig, s, t)
  {
    forall p: seq<nat> ensures N.EpsPath(nfa, p, s, t) <==> N.EpsPath(orig, p, s, t) {
      assert forall n :: 0 <= n < |nfa| ==>
             (nfa[n].trans.Epsilon? <==> orig[n].trans.Epsilon?) && nfa[n].next == orig[n].next;
    }
  }

  lemma ClosureSame(ec: Classes, nfa: N.Automaton, orig: N.Automaton, S: set<nat>)
    requires Compiled(ec, nfa, orig)
    ensures N.Closure(nfa, S) == N.Closure(orig, S)
  {
    forall s, t | s in S ensures N.EpsReach(nfa, s, t) <==> N.EpsReach(orig, s, t) {
      EpsReachSame(ec, nfa, orig, s, t);
    }
    assert forall n :: 0 <= n < |nfa| ==> (N.Significant(nfa[n]) <==> N.Significant(orig[n]));
  }

  lemma AcceptsSame(ec: Classes, nfa: N.Automaton, orig: N.Automaton, S: set<nat>)
    requires Compiled(ec, nfa, orig)
    ensures N.Accepts(nfa, S) == N.Accepts(orig, S)
  {
  }

  // ---------------------------------------------------------------- states

  /** A transition slot; `Jam` leads nowhere. */
  datatype Slot = Uncomputed | Jam | To(n: nat)

  /** A deterministic state: its automaton states, the numbers it accepts (empty for none), for each
      class the representative of its class of classes, and the memoised transitions. */
  datatype State = State(nfas: seq<nat>, accept: set<int>, reps: seq<int>, byteXtion: bool, xtions: seq<Slot>)

  /** No state of the list tells class c from class r. */
  ghost predicate Alike(ec: Classes, nfa: N.Automaton, nfas: seq<nat>, c: int, r: int) {
    forall i :: 0 <= i < |nfas| && nfas[i] < |nfa| ==>
      (TakesClass(ec, nfa[nfas[i]].trans, c) <==> TakesClass(ec, nfa[nfas[i]].trans, r))
  }

  lemma AlikeFollow(ec: Classes, nfa: N.Automaton, nfas: seq<nat>, c: int, r: int)
    requires N.Closed(nfa) && Alike(ec, nfa, nfas, c, r)
    ensures FollowClass(ec, nfa, Elements(nfas), c) == FollowClass(ec, nfa, Elements(nfas), r)
  {
    forall n | n in Elements(nfas) && n < |nfa|
      ensures TakesClass(ec, nfa[n].trans, c) <==> TakesClass(ec, nfa[n].trans, r)
    {
      var i :| 0 <= i < |nfas| && nfas[i] == n;
    }
  }

  predicate ByteTrans(t: N.Trans) { t.Class? || (t.Char? && t.sym != N.SYM_BOL && t.sym != N.SYM_EOL) }

  ghost predicate Listed(nfa: N.Automaton, nfas: seq<nat>)
    ensures Listed(nfa, nfas) ==> forall i :: 0 <= i < |nfas| ==> nfas[i] < |nfa|
  {
    Ascending(nfas) && forall i :: 0 <= i < |nfas| ==> nfas[i] < |nfa| && N.Significant(nfa[nfas[i]])
  }

  ghost predicate StateOk(ec: Classes, nfa: N.Automaton, d: State)
    ensures StateOk(ec, nfa, d) ==> |d.reps| == |d.xtions| == ec.count && Listed(nfa, d.nfas)
  {
    && Listed(nfa, d.nfas)
    && d.accept == N.Accepts(nfa, Elements(d.nfas))
    && |d.reps| == |d.xtions| == ec.count
    && (forall c :: 0 <= c < ec.count ==> 0 <= d.reps[c] < ec.count && Alike(ec, nfa, d.nfas, c, d.reps[c]))
    && (d.byteXtion <==> exists i :: 0 <= i < |d.nfas| && ByteTrans(nfa[d.nfas[i]].trans))
  }

  /** The outcome of a transition on class c out of a list of states. */
  ghost predicate Leads(ec: Classes, nfa: N.Automaton, states: seq<State>, nfas: seq<nat>, c: int, to: Slot)
    requires N.Closed(nfa)
    ensures Leads(ec, nfa, states, nfas, c, to) && to.To? ==> to.n < |states|
  {
    var F := FollowClass(ec, nfa, Elements(nfas), c);
    match to
    case Uncomputed => false
    case Jam => F == {}
    case To(n) => F != {} && n < |states| && Elements(states[n].nfas) == N.Closure(nfa, F)
  }

  ghost predicate Memoised(ec: Classes, nfa: N.Automaton, states: seq<State>, d: State)
    requires N.Closed(nfa)
  {
    forall c :: 0 <= c < |d.xtions| && d.xtions[c] != Uncomputed ==> Leads(ec, nfa, states, d.nfas, c, d.xtions[c])
  }

  /** States are only added, never change what they stand for, and forget no transition. */
  ghost predicate Extends(before: seq<State>, after: seq<State>) {
    && |before| <= |after|
    && forall i :: 0 <= i < |before| ==> Grows(before[i], after[i])
  }

  ghost predicate Grows(d: State, d': State) {
    && d'.nfas == d.nfas && d'.accept == d.accept && d'.reps == d.reps && d'.byteXtion == d.byteXtion
    && |d'.xtions| == |d.xtions|
    && forall c :: 0 <= c < |d.xtions| && d.xtions[c] != Uncomputed ==> d'.xtions[c] == d.xtions[c]
  }

  lemma ExtendsTransitive(a: seq<State>, b: seq<State>, c: seq<State>)
    requires Extends(a, b) && Extends(b, c)
    ensures Extends(a, c)
  {
    forall i | 0 <= i < |a| ensures Grows(a[i], c[i]) {
      assert Grows(a[i], b[i]) && Grows(b[i], c[i]);
    }
  }

  lemma LeadsExtends(ec: Classes, nfa: N.Automaton, a: seq<State>, b: seq<State>, nfas: seq<nat>, c: int, to: Slot)
    requires N.Closed(nfa) && Extends(a, b) && Leads(ec, nfa, a, nfas, c, to)
    ensures Leads(ec, nfa, b, nfas, c, to)
  {
    assert to.To? ==> Grows(a[to.n], b[to.n]);
  }

  lemma MemoisedExtends(ec: Classes, nfa: N.Automaton, a: seq<State>, b: seq<State>, d: State)
    requires N.Closed(nfa) && Extends(a, b) && Memoised(ec, nfa, a, d)
    ensures Memoised(ec, nfa, b, d)
  {
    forall c | 0 <= c < |d.xtions| && d.xtions[c] != Uncomputed ensures Leads(ec, nfa, b, d.nfas, c, d.xtions[c]) {
      LeadsExtends(ec, nfa, a, b, d.nfas, c, d.xtions[c]);
    }
  }

  /** The whole machine is consistent. */
  ghost predicate Good(ec: Classes, nfa: N.Automaton, states: seq<State>, cache: map<string, nat>)
    ensures Good(ec, nfa, states, cache) ==> N.Closed(nfa)
    ensures Good(ec, nfa, states, cache) ==> forall i :: 0 <= i < |states| ==> StateOk(ec, nfa, states[i])
  {
    && N.Closed(nfa)
    && (forall i :: 0 <= i < |states| ==> StateOk(ec, nfa, states[i]) && Memoised(ec, nfa, states, states[i]))
    && (forall tag :: tag in cache ==> cache[tag] < |states| && N.Tag(nfa, states[cache[tag]].nfas) == tag)
  }

  // ---------------------------------------------------------------- what the operations keep

  function WithXtion(states: seq<State>, s: nat, c: nat, to: Slot): (r: seq<State>)
    requires s < |states| && c < |states[s].xtions|
    ensures |r| == |states|
  {
    states[s := states[s].(xtions := states[s].xtions[c := to])]
  }

  lemma XtionKeeps(ec: Classes, nfa: N.Automaton, states: seq<State>, cache: map<string, nat>, s: nat, c: nat, to: Slot)
    requires Good(ec, nfa, states, cache) && s < |states| && c < ec.count
    requires Leads(ec, nfa, states, states[s].nfas, c, to)
    requires states[s].xtions[c] == Uncomputed || states[s].xtions[c] == to
    ensures Good(ec, nfa, WithXtion(states, s, c, to), cache) && Extends(states, WithXtion(states, s, c, to))
  {
    hide Leads;
    var states' := WithXtion(states, s, c, to);
    var d := states'[s];
    assert Extends(states, states');
    assert Memoised(ec, nfa, states, d) by {
      assert Memoised(ec, nfa, states, states[s]);
    }
    assert StateOk(ec, nfa, d) by {
      assert StateOk(ec, nfa, states[s]);
    }
    forall i | 0 <= i < |states'| ensures StateOk(ec, nfa, states'[i]) && Memoised(ec, nfa, states', states'[i]) {
      hide StateOk, Memoised;
      MemoisedExtends(ec, nfa, states, states', states'[i]);
    }
    forall tag | tag in cache ensures cache[tag] < |states'| && N.Tag(nfa, states'[cache[tag]].nfas) == tag {
    }
  }

  lemma StateKeeps(ec: Classes, nfa: N.Automaton, states: seq<State>, cache: map<string, nat>, d: State)
    requires Good(ec, nfa, states, cache) && StateOk(ec, nfa, d) && forall c :: 0 <= c < |d.xtions| ==>
             d.xtions[c] == Uncomputed
    ensures Good(ec, nfa, states + [d], cache[N.Tag(nfa, d.nfas) := |states|]) && Extends(states, states + [d])
  {
    var states' := states + [d];
    hide Leads, StateOk;
    assert Extends(states, states');
    assert Memoised(ec, nfa, states, d);
    forall i | 0 <= i < |states'| ensures StateOk(ec, nfa, states'[i]) && Memoised(ec, nfa, states', states'[i]) {
      hide Memoised;
      MemoisedExtends(ec, nfa, states, states', states'[i]);
    }
  }

  /** A cache hit is a state made of exactly the same automaton states. */
  lemma HitIsEqual(ec: Classes, nfa: N.Automaton, states: seq<State>, cache: map<string, nat>, list: seq<nat>)
    requires Good(ec, nfa, states, cache) && Listed(nfa, list) && N.Tag(nfa, list) in cache
    ensures states[cache[N.Tag(nfa, list)]].nfas == list
  {
    var other := states[cache[N.Tag(nfa, list)]].nfas;
    assert Listed(nfa, other);
    N.TagExact(nfa, list, other);
    N.EssenceOfSignificant(nfa, list);
    N.EssenceOfSignificant(nfa, other);
  }

  /** A state flagged terminal has no transition on any byte. */
  lemma TerminalJams(ec: Classes, nfa: N.Automaton, orig: N.Automaton, d: State, sym: int)
    requires Compiled(ec, nfa, orig) && StateOk(ec, nfa, d) && !d.byteXtion && 0 <= sym < 256
    ensures FollowClass(ec, nfa, Elements(d.nfas), ec.of[sym]) == {}
    ensures N.Next(orig, Elements(d.nfas), sym) == {}
  {
    forall n | n in Elements(d.nfas) ensures n < |nfa| && !TakesClass(ec, nfa[n].trans, ec.of[sym]) {
      var i :| 0 <= i < |d.nfas| && d.nfas[i] == n;
      assert !ByteTrans(nfa[d.nfas[i]].trans);
      TakesClassIs(ec, nfa[n].trans, orig[n].trans, sym);
      assert Stands(ec, nfa[n].trans, orig[n].trans);
    }
    FollowClassIs(ec, nfa, orig, Elements(d.nfas), sym);
  }
}
