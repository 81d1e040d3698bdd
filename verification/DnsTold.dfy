/** What callbacks are told, over every run, and in what order requests are made. */
module DnsTold {
  import opened Options
  import opened DnsRun

  // ---------------------------------------------------------------- outcomes

  /** The outcome of a reply: a timeout exactly if it timed out, and otherwise the answer it left. */
  ghost predicate Fits(o: Outcome, reply: Reply) {
    (o.TimedOut? <==> reply.timeout) && (o.Resolved? ==> reply.cached == Some(o.answer))
  }

  /** A firing by the reply that came at once to the i-th request made from a queue. */
  ghost predicate AtOnceTold(queue: seq<Key>, made: seq<Made>, f: Firing) {
    exists i :: 0 <= i < |made| && AtOnceAt(queue, made, f, i)
  }

  ghost predicate AtOnceAt(queue: seq<Key>, made: seq<Made>, f: Firing, i: nat)
    requires i < |made|
  {
    i < |queue| && made[i].AtOnce? && f.key == ReplyKey(queue[i]) && Fits(f.outcome, made[i].reply)
  }

  /** A callback is told in this event, and of what. */
  ghost predicate Told(s: State, e: Event, f: Firing) {
    match e
    case Lookup(key, cb, known, made) =>
      && !s.down
      && if known.Some? then f == Firing(cb, key, Resolved(known.value))
         else AtOnceTold(if key in s.asyncs then s.queued else s.queued + [key], made, f)
    case Replied(key, reply) => f.key == ReplyKey(key) && Fits(f.outcome, reply)
    case Process(made) => AtOnceTold(s.queued, made, f)
    case Done => false
  }

  /** A reply with something to tell is told to everyone waiting, in the order in which they asked. */
  lemma CheckedTells(s: State, key: Key, reply: Reply)
    ensures var s', n := Checked(s, key, reply), |s.fired|;
            && s.fired <= s'.fired
            && (forall i :: n <= i < |s'.fired| ==> s'.fired[i].key == key && Fits(s'.fired[i].outcome, reply))
            && (key in s.asyncs && Tells(reply) ==>
                  && key !in s'.asyncs && |s'.fired| == n + |s.asyncs[key]|
                  && forall i :: n <= i < |s'.fired| ==> s'.fired[i].cb == s.asyncs[key][i - n])
            && (key !in s.asyncs || !Tells(reply) ==> s'.fired == s.fired)
  {
  }

  /** The same of the reply to a request in flight. */
  lemma ReplyTells(s: State, key: Key, reply: Reply)
    requires ReplyKey(key) in s.asyncs && Tells(reply)
    ensures var s', n, cbs := Step(s, Replied(key, reply)), |s.fired|, s.asyncs[ReplyKey(key)];
            && s.fired <= s'.fired && |s'.fired| == n + |cbs| && ReplyKey(key) !in s'.asyncs
            && forall i :: n <= i < |s'.fired| ==>
                 && s'.fired[i].cb == cbs[i - n] && s'.fired[i].key == ReplyKey(key)
                 && Fits(s'.fired[i].outcome, reply)
  {
    hide Checked, Fits;
    CheckedTells(s.(inFlight := s.inFlight - multiset{key}), ReplyKey(key), reply);
  }

  lemma IssuedOneTells(s: State, made: seq<Made>)
    requires s.queued != []
    ensures var s' := IssuedOne(s, if made == [] then Later else made[0]);
            && s.fired <= s'.fired
            && forall i :: |s.fired| <= i < |s'.fired| ==> made != [] && AtOnceAt(s.queued, made, s'.fired[i], 0)
  {
    hide Checked;
    if made != [] && made[0].AtOnce? {
      var s1 := s.(queued := s.queued[1..]);
      CheckedTells(s1, ReplyKey(s.queued[0]), made[0].reply);
    }
  }

  lemma {:induction false} IssuedTells(s: State, made: seq<Made>)
    ensures var s' := Issued(s, made);
            && s.fired <= s'.fired
            && forall i :: |s.fired| <= i < |s'.fired| ==> AtOnceTold(s.queued, made, s'.fired[i])
    decreases |s.queued|
  {
    if s.queued != [] && s.pending < MAX_PENDING_REQUESTS {
      var how, rest := if made == [] then Later else made[0], if made == [] then [] else made[1..];
      hide IssuedOne, AtOnceAt;
      IssuedTurn(s, made);
      QueueShrinks(s, how);
      var s1 := IssuedOne(s, how);
      IssuedOneTells(s, made);
      IssuedTells(s1, rest);
      hide Issued;
      var s' := Issued(s, made);
      forall i | |s.fired| <= i < |s'.fired| ensures AtOnceTold(s.queued, made, s'.fired[i]) {
        if i < |s1.fired| {
          assert s'.fired[i] == s1.fired[i];
        } else {
          assert AtOnceTold(s1.queued, rest, s'.fired[i]);
          var k :| 0 <= k < |rest| && AtOnceAt(s1.queued, rest, s'.fired[i], k);
          NextAtOnce(s.queued, made, s'.fired[i], k);
        }
      }
    }
  }

  lemma NextAtOnce(queue: seq<Key>, made: seq<Made>, f: Firing, i: nat)
    requires queue != [] && made != [] && i < |made[1..]| && AtOnceAt(queue[1..], made[1..], f, i)
    ensures AtOnceAt(queue, made, f, i + 1)
  {
    assert queue[1..][i] == queue[i + 1] && made[1..][i] == made[i + 1];
  }

  /** Firings are only ever added in an event, and what is added is what is told in it. */
  lemma StepTells(s: State, e: Event)
    ensures var s' := Step(s, e);
            s.fired <= s'.fired && forall i :: |s.fired| <= i < |s'.fired| ==> Told(s, e, s'.fired[i])
  {
    hide Issued, Checked, AtOnceTold;
    match e {
      case Lookup(key, cb, known, made) =>
        if !s.down && known.None? {
          IssuedTells(Joined(s, key, cb), made);
        }
      case Replied(key, reply) =>
        CheckedTells(s.(inFlight := s.inFlight - multiset{key}), ReplyKey(key), reply);
      case Process(made) =>
        IssuedTells(s, made);
      case Done =>
    }
  }

  /** Every callback called in a run was told in one of its events, of that reply, or of the known answer. */
  lemma {:induction false} EveryFiring(es: seq<Event>, i: nat) returns (j: nat)
    requires i < |Run(Start(), es).fired|
    ensures j < |es| && |Run(Start(), es[..j]).fired| <= i < |Run(Start(), es[..j + 1]).fired|
    ensures Told(Run(Start(), es[..j]), es[j], Run(Start(), es).fired[i])
    decreases |es|
  {
    hide Step, Told;
    assert es != [] by { NothingYet(); }
    var n := |es| - 1;
    var before := es[..n];
    assert es == before + [es[n]];
    RunAppends(Start(), before, es[n]);
    StepTells(Run(Start(), before), es[n]);
    hide Run;
    assert es[..n + 1] == es;
    if i < |Run(Start(), before).fired| {
      j := EveryFiring(before, i);
      assert before[..j] == es[..j] && before[..j + 1] == es[..j + 1];
    } else {
      j := n;
    }
  }

  lemma NothingYet()
    ensures Run(Start(), []).fired == []
  {
  }

  // ---------------------------------------------------------------- order

  /** Requests are made in the order in which they were begun. */
  ghost predicate InOrder(s: State) { s.issued + s.queued == s.begun }

  lemma {:induction false} IssuedInOrder(s: State, made: seq<Made>)
    requires InOrder(s)
    ensures InOrder(Issued(s, made)) && Issued(s, made).begun == s.begun
    decreases |s.queued|
  {
    if s.queued != [] && s.pending < MAX_PENDING_REQUESTS {
      var how, rest := if made == [] then Later else made[0], if made == [] then [] else made[1..];
      var s1 := IssuedOne(s, how);
      assert s1.issued == s.issued + [s.queued[0]] && s1.queued == s.queued[1..] && s1.begun == s.begun;
      assert s.issued + s.queued == s1.issued + s1.queued;
      hide IssuedOne;
      IssuedInOrder(s1, rest);
    }
  }

  lemma StepInOrder(s: State, e: Event)
    requires InOrder(s)
    ensures InOrder(Step(s, e))
    ensures Step(s, e).begun ==
            if e.Lookup? && !s.down && e.known.None? && e.key !in s.asyncs then s.begun + [e.key] else s.begun
  {
    hide Issued;
    match e {
      case Lookup(key, cb, known, made) =>
        if !s.down && known.None? {
          var s1 := Joined(s, key, cb);
          assert s1.queued != s.queued ==> s.issued + (s.queued + [key]) == (s.issued + s.queued) + [key];
          IssuedInOrder(s1, made);
        }
      case Process(made) =>
        IssuedInOrder(s, made);
      case Replied(key, reply) =>
      case Done =>
    }
  }

  /** In every run requests are made first come, first served: those made so far and those queued are the
      requests begun, in order. */
  lemma {:induction false} FirstComeFirstServed(es: seq<Event>)
    ensures var s := Run(Start(), es); s.issued + s.queued == s.begun
    decreases |es|
  {
    if es != [] {
      var n := |es| - 1;
      assert es == es[..n] + [es[n]];
      FirstComeFirstServed(es[..n]);
      RunAppends(Start(), es[..n], es[n]);
      StepInOrder(Run(Start(), es[..n]), es[n]);
    }
  }
}
