/** Nondeterministic automata over 256 bytes and two anchors: what a set of states becomes on a symbol,
    the epsilon closure, and the tag under which a list of states is cached. */
module Nfa {
  import opened Seqs

  const SYM_BOL := 256
  const SYM_EOL := 257
  const NUM_SYM := 258
  const NO_ACCEPT := 0

  datatype Trans = Epsilon | Char(sym: int) | Class(negated: bool, syms: seq<int>)

  /** A state is known by its position in the automaton, which is also its ID. */
  datatype State = State(trans: Trans, accept: int, next: seq<nat>)

  type Automaton = seq<State>

  ghost predicate Closed(nfa: Automaton) {
    forall n, i :: 0 <= n < |nfa| && 0 <= i < |nfa[n].next| ==> nfa[n].next[i] < |nfa|
  }

  ghost predicate Within(nfa: Automaton, S: set<nat>) { forall n :: n in S ==> n < |nfa| }

  // ---------------------------------------------------------------- direct simulation

  /** Does a transition take a symbol? */
  predicate Takes(t: Trans, sym: int) {
    match t
    case Epsilon => false
    case Char(c) => c == sym
    case Class(negated, syms) => (sym in syms) != negated
  }

  /** The states one step on. */
  ghost function Follow(nfa: Automaton, S: set<nat>, sym: int): set<nat>
    requires Closed(nfa)
  {
    set n, t | n in S && n < |nfa| && Takes(nfa[n].trans, sym) && t in nfa[n].next :: t
  }

  /** p is a path of epsilon transitions from s to t. */
  ghost predicate EpsPath(nfa: Automaton, p: seq<nat>, s: nat, t: nat) {
    && |p| > 0 && p[0] == s && p[|p| - 1] == t
    && (forall i :: 0 <= i < |p| ==> p[i] < |nfa|)
    && (forall i :: 0 <= i < |p| - 1 ==> nfa[p[i]].trans.Epsilon? && p[i + 1] in nfa[p[i]].next)
  }

  ghost predicate EpsReach(nfa: Automaton, s: nat, t: nat) { exists p: seq<nat> :: EpsPath(nfa, p, s, t) }

  /** States that matter: those with a symbol to take and those that accept. */
  predicate Significant(n: State) { n.trans != Epsilon || n.accept != NO_ACCEPT }

  ghost function Closure(nfa: Automaton, S: set<nat>): (r: set<nat>)
    ensures Within(nfa, r)
  {
    set t | 0 <= t < |nfa| && Significant(nfa[t]) && (exists s :: s in S && EpsReach(nfa, s, t))
  }

  ghost function Next(nfa: Automaton, S: set<nat>, sym: int): set<nat>
    requires Closed(nfa)
  {
    Closure(nfa, Follow(nfa, S, sym))
  }

  ghost function Simulate(nfa: Automaton, S: set<nat>, input: seq<int>): set<nat>
    requires Closed(nfa)
    decreases |input|
  {
    if input == [] then S else Simulate(nfa, Next(nfa, S, input[0]), input[1..])
  }

  ghost function Accepts(nfa: Automaton, S: set<nat>): set<int> {
    set n | n in S && n < |nfa| && nfa[n].accept != NO_ACCEPT :: nfa[n].accept
  }

  lemma {:induction false} SimulateAppend(nfa: Automaton, S: set<nat>, input: seq<int>, sym: int)
    requires Closed(nfa)
    ensures Simulate(nfa, S, input + [sym]) == Next(nfa, Simulate(nfa, S, input), sym)
    decreases |input|
  {
    if input == [] {
      assert [sym][1..] == [];
    } else {
      assert (input + [sym])[1..] == input[1..] + [sym];
      SimulateAppend(nfa, Next(nfa, S, input[0]), input[1..], sym);
    }
  }

  lemma NextOfNone(nfa: Automaton, sym: int)
    requires Closed(nfa)
    ensures Next(nfa, {}, sym) == {}
  {
    assert Follow(nfa, {}, sym) == {};
  }

  lemma {:induction false} SimulateNone(nfa: Automaton, input: seq<int>)
    requires Closed(nfa)
    ensures Simulate(nfa, {}, input) == {}
  {
    if input != [] {
      NextOfNone(nfa, input[0]);
      SimulateNone(nfa, input[1..]);
    }
  }

  // ---------------------------------------------------------------- paths

  /** From s through epsilons to u, and from u on the symbol to v. */
  ghost predicate Hop(nfa: Automaton, s: nat, sym: int, u: nat, v: nat) {
    EpsReach(nfa, s, u) && u < |nfa| && Takes(nfa[u].trans, sym) && v in nfa[u].next
  }

  /** t can be reached from s by a path that spells the input, epsilons aside. */
  ghost predicate Spells(nfa: Automaton, s: nat, input: seq<int>, t: nat)
    decreases |input|
  {
    if input == [] then EpsReach(nfa, s, t)
    else exists u: nat, v: nat :: Hop(nfa, s, input[0], u, v) && Spells(nfa, v, input[1..], t)
  }

  lemma FollowIsHop(nfa: Automaton, S: set<nat>, sym: int, v: nat)
    requires Closed(nfa)
    ensures v in Follow(nfa, Closure(nfa, S), sym) <==> exists s: nat, u: nat :: s in S && Hop(nfa, s, sym, u, v)
  {
    forall s: nat, u: nat | s in S && Hop(nfa, s, sym, u, v) ensures v in Follow(nfa, Closure(nfa, S), sym) {
      assert u in Closure(nfa, S);
    }
    if v in Follow(nfa, Closure(nfa, S), sym) {
      var u :| u in Closure(nfa, S) && u < |nfa| && Takes(nfa[u].trans, sym) && v in nfa[u].next;
      var s :| s in S && EpsReach(nfa, s, u);
      assert Hop(nfa, s, sym, u, v);
    }
  }

  /** Simulating sets of states finds exactly the states that some path spelling the input ends in. */
  lemma {:induction false} SimulateIsPaths(nfa: Automaton, S: set<nat>, input: seq<int>, t: nat)
    requires Closed(nfa)
    ensures t in Simulate(nfa, Closure(nfa, S), input) <==>
            t < |nfa| && Significant(nfa[t]) && exists s :: s in S && Spells(nfa, s, input, t)
    decreases |input|
  {
    if input != [] {
      var F := Follow(nfa, Closure(nfa, S), input[0]);
      SimulateIsPaths(nfa, F, input[1..], t);
      assert Simulate(nfa, Closure(nfa, S), input) == Simulate(nfa, Closure(nfa, F), input[1..]);
      hide Follow, Closure, Hop, Simulate;
      forall s | s in S && Spells(nfa, s, input, t) ensures exists v :: v in F && Spells(nfa, v, input[1..], t) {
        var u: nat, v: nat :| Hop(nfa, s, input[0], u, v) && Spells(nfa, v, input[1..], t);
        FollowIsHop(nfa, S, input[0], v);
      }
      forall v | v in F && Spells(nfa, v, input[1..], t) ensures exists s :: s in S && Spells(nfa, s, input, t) {
        FollowIsHop(nfa, S, input[0], v);
        var s: nat, u: nat :| s in S && Hop(nfa, s, input[0], u, v);
        assert Spells(nfa, s, input, t);
      }
    }
  }

  // ---------------------------------------------------------------- epsilon closure

  lemma EpsStep(nfa: Automaton, s: nat, t: nat, u: nat)
    requires EpsReach(nfa, s, t) && t < |nfa| && nfa[t].trans.Epsilon? && u in nfa[t].next && u < |nfa|
    ensures EpsReach(nfa, s, u)
  {
    var p :| EpsPath(nfa, p, s, t);
    assert EpsPath(nfa, p + [u], s, u);
  }

  /** A set that holds s and is closed under epsilon steps holds all that s reaches. */
  lemma {:induction false} ReachStays(nfa: Automaton, S: set<nat>, p: seq<nat>, s: nat, t: nat)
    requires EpsPath(nfa, p, s, t) && s in S
    requires forall n, u :: n in S && n < |nfa| && nfa[n].trans.Epsilon? && u in nfa[n].next ==> u in S
    ensures t in S
  {
    if |p| > 1 {
      var p' := p[..|p| - 1];
      var u := p[|p| - 2];
      assert EpsPath(nfa, p', s, u) by {
        forall i | 0 <= i < |p'| - 1 ensures nfa[p'[i]].trans.Epsilon? && p'[i + 1] in nfa[p'[i]].next {
          assert p'[i] == p[i] && p'[i + 1] == p[i + 1];
        }
      }
      ReachStays(nfa, S, p', s, u);
    }
  }

  function Kept(nfa: Automaton, s: seq<nat>): (r: seq<nat>)
    requires forall i :: 0 <= i < |s| ==> s[i] < |nfa|
    ensures forall x :: x in r <==> x in s && x < |nfa| && Significant(nfa[x])
    ensures Distinct(s) ==> Distinct(r)
  {
    if s == [] then []
    else
      var last := s[|s| - 1];
      Kept(nfa, s[..|s| - 1]) + if Significant(nfa[last]) then [last] else []
  }

  /** All that an epsilon state leads to has been seen. */
  ghost predicate Expanded(nfa: Automaton, n: nat, marked: set<nat>) {
    n < |nfa| && (nfa[n].trans.Epsilon? ==> forall u :: u in nfa[n].next ==> u in marked)
  }

  /** The queue of the walk: distinct states that s reaches, the first i of them expanded. */
  ghost predicate Queue(nfa: Automaton, s: nat, states: seq<nat>, i: nat)
    ensures Queue(nfa, s, states, i) ==> i <= |states| && forall k :: 0 <= k < |states| ==> states[k] < |nfa|
  {
    && i <= |states| && Distinct(states) && s in states
    && (forall k :: 0 <= k < |states| ==> states[k] < |nfa| && EpsReach(nfa, s, states[k]))
    && (forall k :: 0 <= k < i ==> Expanded(nfa, states[k], Elements(states)))
  }

  lemma QueueStarts(nfa: Automaton, s: nat)
    requires s < |nfa|
    ensures Queue(nfa, s, [s], 0)
  {
    assert EpsPath(nfa, [s], s, s);
  }

  lemma QueueFits(nfa: Automaton, s: nat, states: seq<nat>, i: nat)
    requires Queue(nfa, s, states, i)
    ensures |states| <= |nfa|
  {
    DistinctFits(states, |nfa|);
  }

  lemma QueuePushes(nfa: Automaton, s: nat, states: seq<nat>, i: nat, u: nat)
    requires Queue(nfa, s, states, i) && i < |states| && nfa[states[i]].trans.Epsilon?
    requires u in nfa[states[i]].next && u < |nfa| && u !in states
    ensures Queue(nfa, s, states + [u], i)
  {
    EpsStep(nfa, s, states[i], u);
  }

  lemma QueueMoves(nfa: Automaton, s: nat, states: seq<nat>, i: nat)
    requires Queue(nfa, s, states, i) && i < |states|
    requires nfa[states[i]].trans.Epsilon? ==> forall u :: u in nfa[states[i]].next ==> u in Elements(states)
    ensures Queue(nfa, s, states, i + 1)
  {
  }

  lemma QueueDone(nfa: Automaton, s: nat, states: seq<nat>)
    requires Queue(nfa, s, states, |states|)
    ensures Distinct(Kept(nfa, states)) && Elements(Kept(nfa, states)) == Closure(nfa, {s})
  {
    forall t | t in Closure(nfa, {s}) ensures t in states {
      assert EpsReach(nfa, s, t);
      var p :| EpsPath(nfa, p, s, t);
      ReachStays(nfa, Elements(states), p, s, t);
    }
  }

  lemma KeptNext(nfa: Automaton, states: seq<nat>, states': seq<nat>, i: nat)
    requires (forall k :: 0 <= k < |states'| ==> states'[k] < |nfa|) && i < |states| && states <= states'
    ensures Kept(nfa, states'[..i + 1]) == Kept(nfa, states[..i]) + if Significant(nfa[states[i]]) then [states[i]]
            else []
  {
    assert states'[..i + 1][..i] == states[..i];
  }

  /** The significant states that s reaches through epsilons, by a breadth-first walk. */
  method EpsilonClosure(nfa: Automaton, s: nat) returns (closure: seq<nat>)
    requires Closed(nfa) && s < |nfa|
    ensures Distinct(closure) && Elements(closure) == Closure(nfa, {s})
  {
    hide Queue, Kept, Closure, Closed;
    var states: seq<nat>, marked: set<nat> := [s], {s};
    closure := [];
    QueueStarts(nfa, s);
    assert Kept(nfa, []) == [] by { KeptNone(nfa); }
    var i := 0;
    while i < |states|
      invariant i <= |states| && Queue(nfa, s, states, i) && marked == Elements(states)
      invariant closure == Kept(nfa, states[..i])
      decreases |nfa| - i
    {
      QueueFits(nfa, s, states, i);
      var n := states[i];
      ghost var before := states;
      if nfa[n].trans.Epsilon? {
        states, marked := Enqueue(nfa, states, marked, i, s);
        if nfa[n].accept != NO_ACCEPT {
          closure := closure + [n];
        }
      } else {
        closure := closure + [n];
      }
      QueueMoves(nfa, s, states, i);
      KeptNext(nfa, before, states, i);
      i := i + 1;
    }
    assert states[..i] == states;
    QueueDone(nfa, s, states);
  }

  lemma KeptNone(nfa: Automaton)
    ensures Kept(nfa, []) == []
  {
  }

  /** Queue the successors of an epsilon state that have not been seen. */
  method Enqueue(nfa: Automaton, states: seq<nat>, marked: set<nat>, i: nat, ghost s: nat)
      returns (states': seq<nat>, marked': set<nat>)
    requires Closed(nfa) && Queue(nfa, s, states, i) && i < |states| && nfa[states[i]].trans.Epsilon?
    requires marked == Elements(states)
    ensures states <= states' && Queue(nfa, s, states', i) && marked' == Elements(states')
    ensures forall u :: u in nfa[states[i]].next ==> u in marked'
  {
    hide Queue;
    states', marked' := states, marked;
    var next := nfa[states[i]].next;
    for j := 0 to |next|
      invariant states <= states' && Queue(nfa, s, states', i) && marked' == Elements(states')
      invariant forall k :: 0 <= k < j ==> next[k] in marked'
    {
      var u := next[j];
      if u !in marked' {
        QueuePushes(nfa, s, states', i, u);
        states', marked' := states' + [u], marked' + {u};
      }
    }
  }

  lemma HeadFirst(s: seq<nat>)
    requires Ascending(s) && s != []
    ensures Ascending(s[1..]) && s == [s[0]] + s[1..] && forall y :: y in s[1..] ==> s[0] < y
  {
  }

  lemma ConsAscends(x: nat, s: seq<nat>)
    requires Ascending(s) && forall y :: y in s ==> x < y
    ensures Ascending([x] + s)
  {
    assert forall i :: 0 <= i < |s| ==> s[i] in s;
  }

  /** Insertion into a sorted list; the sort is by ID. */
  function Placed(s: seq<nat>, x: nat): (r: seq<nat>)
    requires Ascending(s) && x !in s
    ensures (forall y :: y in r <==> y in s || y == x) && Ascending(r)
  {
    if s == [] then [x]
    else
      HeadFirst(s);
      if x < s[0] then
        ConsAscends(x, s);
        [x] + s
      else
        var r := Placed(s[1..], x);
        ConsAscends(s[0], r);
        [s[0]] + r
  }

  function Sorted(s: seq<nat>): (r: seq<nat>)
    requires Distinct(s)
    ensures (forall y :: y in r <==> y in s) && Ascending(r)
  {
    if s == [] then []
    else
      assert s == [s[0]] + s[1..];
      Placed(Sorted(s[1..]), s[0])
  }

  lemma ClosureUnion(nfa: Automaton, A: set<nat>, B: set<nat>)
    ensures Closure(nfa, A + B) == Closure(nfa, A) + Closure(nfa, B)
  {
  }

  // ---------------------------------------------------------------- tags

  function Digits(id: nat): (r: string)
    ensures |r| > 0 && forall i :: 0 <= i < |r| ==> '0' <= r[i] <= '9'
  {
    [('0' as int + id % 10) as char] + if id / 10 > 0 then Digits(id / 10) else ""
  }

  lemma {:induction false} DigitsInjective(a: nat, b: nat)
    requires Digits(a) == Digits(b)
    ensures a == b
    decreases a
  {
    assert Digits(a)[0] == Digits(b)[0];
    assert Digits(a)[1..] == (if a / 10 > 0 then Digits(a / 10) else "");
    assert Digits(b)[1..] == (if b / 10 > 0 then Digits(b / 10) else "");
    if a / 10 > 0 && b / 10 > 0 {
      DigitsInjective(a / 10, b / 10);
    }
  }

  /** The cache tag of a list of states: decimal IDs, least digit first, each followed by '&';
      insignificant states leave no trace. */
  function Tag(nfa: Automaton, list: seq<nat>): string
    requires forall i :: 0 <= i < |list| ==> list[i] < |nfa|
  {
    if list == [] then ""
    else if Significant(nfa[list[0]]) then Digits(list[0]) + "&" + Tag(nfa, list[1..])
    else Tag(nfa, list[1..])
  }

  function Essence(nfa: Automaton, list: seq<nat>): (r: seq<nat>)
    requires forall i :: 0 <= i < |list| ==> list[i] < |nfa|
    ensures forall x :: x in r <==> x in list && x < |nfa| && Significant(nfa[x])
  {
    if list == [] then []
    else if Significant(nfa[list[0]]) then [list[0]] + Essence(nfa, list[1..])
    else Essence(nfa, list[1..])
  }

  function Joined(ids: seq<nat>): string { if ids == [] then "" else Digits(ids[0]) + "&" + Joined(ids[1..]) }

  lemma {:induction false} TagIsJoined(nfa: Automaton, list: seq<nat>)
    requires forall i :: 0 <= i < |list| ==> list[i] < |nfa|
    ensures Tag(nfa, list) == Joined(Essence(nfa, list))
  {
    if list != [] {
      TagIsJoined(nfa, list[1..]);
      var e := Essence(nfa, list[1..]);
      assert ([list[0]] + e)[1..] == e;
    }
  }

  /** Two texts without '&' that are followed by '&' and something are equal when the wholes are. */
  lemma SplitAtMark(x: string, y: string, p: string, q: string)
    requires '&' !in x && '&' !in y && x + "&" + p == y + "&" + q
    ensures x == y && p == q
  {
    var w := x + "&" + p;
    assert w[|x|] == '&' && (y + "&" + q)[|y|] == '&';
    assert forall i :: 0 <= i < |x| ==> w[i] == x[i] && w[i] != '&';
    assert forall i :: 0 <= i < |y| ==> (y + "&" + q)[i] == y[i] && w[i] != '&';
    assert |x| == |y|;
    assert x == w[..|x|] == y;
    assert p == w[|x| + 1..] == q;
  }

  lemma {:induction false} JoinedInjective(a: seq<nat>, b: seq<nat>)
    requires Joined(a) == Joined(b)
    ensures a == b
  {
    if a != [] && b != [] {
      SplitAtMark(Digits(a[0]), Digits(b[0]), Joined(a[1..]), Joined(b[1..]));
      DigitsInjective(a[0], b[0]);
      JoinedInjective(a[1..], b[1..]);
      assert a == [a[0]] + a[1..] && b == [b[0]] + b[1..];
    }
  }

  /** Lists share a tag exactly when they agree on their significant states. */
  lemma TagExact(nfa: Automaton, a: seq<nat>, b: seq<nat>)
    requires (forall i :: 0 <= i < |a| ==> a[i] < |nfa|) && (forall i :: 0 <= i < |b| ==> b[i] < |nfa|)
    ensures Tag(nfa, a) == Tag(nfa, b) <==> Essence(nfa, a) == Essence(nfa, b)
  {
    TagIsJoined(nfa, a);
    TagIsJoined(nfa, b);
    if Tag(nfa, a) == Tag(nfa, b) {
      JoinedInjective(Essence(nfa, a), Essence(nfa, b));
    }
  }

  /** Sharing a tag preserves meaning: the same accepting numbers and the same states on every symbol. */
  lemma SharedTag(nfa: Automaton, a: seq<nat>, b: seq<nat>, sym: int)
    requires Closed(nfa)
    requires (forall i :: 0 <= i < |a| ==> a[i] < |nfa|) && (forall i :: 0 <= i < |b| ==> b[i] < |nfa|)
    requires Tag(nfa, a) == Tag(nfa, b)
    ensures Accepts(nfa, Elements(a)) == Accepts(nfa, Elements(b))
    ensures Follow(nfa, Elements(a), sym) == Follow(nfa, Elements(b), sym)
  {
    TagExact(nfa, a, b);
    EssenceEnough(nfa, a, sym);
    EssenceEnough(nfa, b, sym);
  }

  lemma EssenceEnough(nfa: Automaton, a: seq<nat>, sym: int)
    requires Closed(nfa) && forall i :: 0 <= i < |a| ==> a[i] < |nfa|
    ensures Accepts(nfa, Elements(a)) == Accepts(nfa, Elements(Essence(nfa, a)))
    ensures Follow(nfa, Elements(a), sym) == Follow(nfa, Elements(Essence(nfa, a)), sym)
  {
    var e := Essence(nfa, a);
    assert forall n :: n in Elements(e) <==> n in Elements(a) && n < |nfa| && Significant(nfa[n]);
    forall x | x in Accepts(nfa, Elements(a)) ensures x in Accepts(nfa, Elements(e)) {
      var n :| n in Elements(a) && n < |nfa| && nfa[n].accept != NO_ACCEPT && nfa[n].accept == x;
      assert n in Elements(e);
    }
  }

  /** A list of significant states alone is its own essence, so the cache shares only equal lists. */
  lemma {:induction false} EssenceOfSignificant(nfa: Automaton, a: seq<nat>)
    requires forall i :: 0 <= i < |a| ==> a[i] < |nfa| && Significant(nfa[a[i]])
    ensures Essence(nfa, a) == a
  {
    if a != [] {
      EssenceOfSignificant(nfa, a[1..]);
      assert a == [a[0]] + a[1..];
    }
  }
}
