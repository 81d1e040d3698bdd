/** Whole-text, first and longest matching by running the machine over a text. */
module ReMatchers {
  import N = Nfa
  import opened DfaSpec
  import opened DfaMachines

  /** The states of the automaton after an input, by direct simulation. */
  ghost function After(nfa: N.Automaton, first: nat, input: seq<int>): set<nat>
    requires N.Closed(nfa)
  {
    N.Simulate(nfa, N.Closure(nfa, {first}), input)
  }

  /** The numbers accepted after an input. */
  ghost function AcceptedBy(nfa: N.Automaton, first: nat, input: seq<int>): set<int>
    requires N.Closed(nfa)
  {
    N.Accepts(nfa, After(nfa, first, input))
  }

  /** A number is accepted exactly when a path that spells the input ends in a state accepting it. */
  lemma AcceptedIsPath(nfa: N.Automaton, first: nat, input: seq<int>, a: int)
    requires N.Closed(nfa)
    ensures a in AcceptedBy(nfa, first, input) <==>
            a != N.NO_ACCEPT && exists t: nat :: N.Spells(nfa, first, input, t) && t < |nfa| && nfa[t].accept == a
  {
    forall t: nat
      ensures t in After(nfa, first, input) <==> t < |nfa| && N.Significant(nfa[t]) && N.Spells(nfa, first, input, t)
    {
      N.SimulateIsPaths(nfa, {first}, input, t);
      assert (exists s :: s in {first} && N.Spells(nfa, s, input, t)) <==> N.Spells(nfa, first, input, t) by {
        assert first in {first};
      }
    }
  }

  /** Once no state is left, nothing more is accepted. */
  lemma JammedStays(nfa: N.Automaton, first: nat, input: seq<int>, more: seq<int>)
    requires N.Closed(nfa) && After(nfa, first, input) == {}
    ensures After(nfa, first, input + more) == {}
    ensures AcceptedBy(nfa, first, input + more) == {}
  {
    SimulateSplit(nfa, N.Closure(nfa, {first}), input, more);
    N.SimulateNone(nfa, more);
  }

  lemma {:induction false} SimulateSplit(nfa: N.Automaton, S: set<nat>, a: seq<int>, b: seq<int>)
    requires N.Closed(nfa)
    ensures N.Simulate(nfa, S, a + b) == N.Simulate(nfa, N.Simulate(nfa, S, a), b)
    decreases |a|
  {
    if a == [] {
      assert a + b == b;
    } else {
      assert (a + b)[1..] == a[1..] + b;
      SimulateSplit(nfa, N.Next(nfa, S, a[0]), a[1..], b);
    }
  }

  ghost predicate Bytes(text: seq<nat>) { forall i :: 0 <= i < |text| ==> text[i] < 256 }

  /** The slot stands for the states after an input. */
  ghost predicate At(m: Machine, d: Slot, input: seq<int>)
    reads m
  {
    && m.Valid() && d != Uncomputed && (d.To? ==> d.n < |m.states|)
    && Meaning(m.states, d) == After(m.orig, m.first, input)
    && (d.To? ==> m.states[d.n].accept == AcceptedBy(m.orig, m.first, input))
  }

  lemma AtStart(m: Machine)
    requires m.Valid()
    ensures At(m, To(m.start), [])
  {
    AcceptsSame(m.ec, m.nfa, m.orig, Meaning(m.states, To(m.start)));
    assert StateOk(m.ec, m.nfa, m.states[m.start]);
  }

  lemma AtJam(m: Machine, input: seq<int>, more: seq<int>)
    requires At(m, Jam, input)
    ensures AcceptedBy(m.orig, m.first, input + more) == {}
  {
    JammedStays(m.orig, m.first, input, more);
  }

  /** One transition of a run. */
  method Move(m: Machine, d: Slot, sym: nat, ghost input: seq<int>) returns (to: Slot)
    requires At(m, d, input) && d.To? && sym < N.NUM_SYM
    modifies m`states, m`cache, m`closures
    ensures At(m, to, input + [sym])
  {
    hide Compiled, Good, N.Simulate, N.Next;
    to := m.Advance(d.n, sym);
    N.SimulateAppend(m.orig, N.Closure(m.orig, {m.first}), input, sym);
  }

  /** Does the whole text match, and which patterns does it match? */
  method MatchAll(m: Machine, text: seq<nat>) returns (matched: bool, matches: set<int>)
    requires m.Valid() && Bytes(text)
    modifies m`states, m`cache, m`closures
    ensures m.Valid()
    ensures matches == AcceptedBy(m.orig, m.first, [N.SYM_BOL] + text + [N.SYM_EOL])
    ensures matched <==> matches != {}
  {
    hide N.Closed, AcceptedBy, After, Meaning, Good, Compiled, N.Closure;
    AtStart(m);
    ghost var input := [N.SYM_BOL];
    var d := Move(m, To(m.start), N.SYM_BOL, []);
    assert [] + [N.SYM_BOL] == [N.SYM_BOL];
    var i := 0;
    while d.To?
      invariant 0 <= i <= |text| && input == [N.SYM_BOL] + text[..i] && At(m, d, input)
      decreases |text| - i, d.To?
    {
      if i == |text| {
        break;
      }
      d := Move(m, d, text[i], input);
      input := input + [text[i]];
      i := i + 1;
    }
    assert [N.SYM_BOL] + text + [N.SYM_EOL] == input + (text[i..] + [N.SYM_EOL]);
    if d.To? {
      d := Move(m, d, N.SYM_EOL, input);
      input := input + [N.SYM_EOL];
      assert input == [N.SYM_BOL] + text + [N.SYM_EOL];
      if d.Jam? {
        AtJam(m, input, []);
        assert input + [] == input;
      }
    } else {
      AtJam(m, input, text[i..] + [N.SYM_EOL]);
    }
    matches := if d.To? then m.states[d.n].accept else {};
    matched := d.To? && m.states[d.n].accept != {};
  }

  ghost predicate AcceptsAt(m: Machine, prefix: seq<int>, text: seq<nat>, k: nat)
    requires N.Closed(m.orig) && k <= |text|
  {
    AcceptedBy(m.orig, m.first, prefix + text[..k]) != {}
  }

  /** The end of the earliest match, 0 if there is none. */
  method Match(m: Machine, text: seq<nat>) returns (end: nat)
    requires m.Valid() && Bytes(text)
    modifies m`states, m`cache, m`closures
    ensures m.Valid()
    ensures end == 0 ==> AcceptedBy(m.orig, m.first, [N.SYM_BOL] + text + [N.SYM_EOL]) == {}
    ensures end == 0 ==> forall k :: 0 < k <= |text| ==> !AcceptsAt(m, [N.SYM_BOL], text, k)
    ensures end > 0 ==> forall k :: 0 < k < end && k <= |text| ==> !AcceptsAt(m, [N.SYM_BOL], text, k)
    ensures end > 0 && !(end <= |text| && AcceptsAt(m, [N.SYM_BOL], text, end)) ==>
            end == (if |text| > 0 then |text| else 1) &&
                AcceptedBy(m.orig, m.first, [N.SYM_BOL] + text + [N.SYM_EOL]) != {}
  {
    hide N.Closed, AcceptedBy, After, Meaning, Good, Compiled, N.Closure;
    AtStart(m);
    var d := Move(m, To(m.start), N.SYM_BOL, []);
    ghost var input := [N.SYM_BOL];
    assert [] + [N.SYM_BOL] == [N.SYM_BOL];
    if d.Jam? {
      assert [N.SYM_BOL] + text[..0] == [N.SYM_BOL];
      NoneFollow(m, [N.SYM_BOL], text, 0);
      return 0;
    }
    var i := 0;
    while i < |text| && d.To?
      invariant 0 <= i <= |text| && input == [N.SYM_BOL] + text[..i] && At(m, d, input)
      invariant forall k :: 0 < k <= i ==> !AcceptsAt(m, [N.SYM_BOL], text, k)
      decreases |text| - i
    {
      d := Move(m, d, text[i], input);
      input := input + [text[i]];
      i := i + 1;
      assert input == [N.SYM_BOL] + text[..i];
      if d.Jam? {
        AtJam(m, input, []);
        assert input + [] == input;
      } else if m.states[d.n].accept != {} {
        return i;
      }
    }
    if d.To? {
      assert text[..i] == text;
      d := Move(m, d, N.SYM_EOL, input);
      if d.To? && m.states[d.n].accept != {} {
        return if |text| > 0 then |text| else 1;
      }
      if d.Jam? {
        AtJam(m, input + [N.SYM_EOL], []);
        assert input + [N.SYM_EOL] + [] == input + [N.SYM_EOL];
      }
    } else {
      NoneFollow(m, [N.SYM_BOL], text, i);
    }
    return 0;
  }

  /** After a jam nothing further on is accepted. */
  lemma NoneFollow(m: Machine, prefix: seq<int>, text: seq<nat>, i: nat)
    requires i <= |text| && At(m, Jam, prefix + text[..i])
    ensures forall k :: i <= k <= |text| ==> !AcceptsAt(m, prefix, text, k)
    ensures AcceptedBy(m.orig, m.first, prefix + text + [N.SYM_EOL]) == {}
  {
    forall k | i <= k <= |text| ensures !AcceptsAt(m, prefix, text, k) {
      AtJam(m, prefix + text[..i], text[i..k]);
      assert prefix + text[..k] == prefix + text[..i] + text[i..k];
    }
    AtJam(m, prefix + text[..i], text[i..] + [N.SYM_EOL]);
    assert prefix + text + [N.SYM_EOL] == prefix + text[..i] + (text[i..] + [N.SYM_EOL]);
  }

  /** The length of the longest match from the start of the text, -1 if there is none. */
  method LongestMatch(m: Machine, text: seq<nat>, bol: bool, eol: bool) returns (last: int)
    requires m.Valid() && Bytes(text)
    modifies m`states, m`cache, m`closures
    ensures m.Valid() && -1 <= last <= |text|
    ensures var prefix := if bol then [N.SYM_BOL] else [];
            if eol && AcceptedBy(m.orig, m.first, prefix + text + [N.SYM_EOL]) != {} then last == |text|
            else (last >= 0 ==> AcceptsAt(m, prefix, text, last)) && forall k :: last < k <= |text| && k >= 0 ==>
                !AcceptsAt(m, prefix, text, k)
  {
    hide N.Closed, AcceptedBy, After, Meaning, Good, Compiled, N.Closure;
    AtStart(m);
    ghost var prefix := if bol then [N.SYM_BOL] else [];
    ghost var input := prefix;
    var d := To(m.start);
    last := -1;
    if bol {
      d := Move(m, d, N.SYM_BOL, []);
      assert [] + [N.SYM_BOL] == [N.SYM_BOL];
      if d.Jam? {
        assert prefix + text[..0] == prefix;
        NoneFollow(m, prefix, text, 0);
        return;
      }
    }
    assert prefix + text[..0] == prefix;
    if m.states[d.n].accept != {} {
      last := 0;
    }
    var i := 0;
    while i < |text| && d.To?
      invariant 0 <= i <= |text| && input == prefix + text[..i] && At(m, d, input)
      invariant -1 <= last <= i && (last >= 0 ==> AcceptsAt(m, prefix, text, last))
      invariant forall k :: last < k <= i && k >= 0 ==> !AcceptsAt(m, prefix, text, k)
      decreases |text| - i
    {
      d := Move(m, d, text[i], input);
      input := input + [text[i]];
      i := i + 1;
      assert input == prefix + text[..i];
      if d.Jam? {
        AtJam(m, input, []);
        assert input + [] == input;
      } else if m.states[d.n].accept != {} {
        last := i;
      }
    }
    if d.To? {
      assert text[..i] == text;
      if eol {
        d := Move(m, d, N.SYM_EOL, input);
        if d.To? && m.states[d.n].accept != {} {
          return |text|;
        }
        if d.Jam? {
          AtJam(m, input + [N.SYM_EOL], []);
          assert input + [N.SYM_EOL] + [] == input + [N.SYM_EOL];
        }
      }
    } else {
      NoneFollow(m, prefix, text, i);
    }
  }
}
