/** Asynchronous name lookups: requests shared by key, queued, and issued a bounded number at a time. */
module DnsRun {
  import opened Options
  import opened Seqs

  const MAX_PENDING_REQUESTS := 20

  const NS_T_A := 1
  const NS_T_PTR := 12
  const NS_T_AAAA := 28

  /** Requests are found by record type and name, or by address. */
  datatype Key = Named(rrtype: nat, name: string) | Address(addr: nat)

  type Callback = nat

  datatype Outcome = TimedOut | Resolved(answer: nat)

  /** A callback that has been called, the key it had asked for, and what it was told. */
  datatype Firing = Firing(cb: Callback, key: Key, outcome: Outcome)

  /** What comes back for a request: whether it timed out, and what the cache then holds. */
  datatype Reply = Reply(timeout: bool, cached: Option<nat>)

  /** What becomes of a request as it is made: a reply at once, or later. */
  datatype Made = Later | AtOnce(reply: Reply)

  /** The callbacks waiting under each key, the keys queued, and the count of requests issued. What is
      in flight, who asked for what, what was called, what was refused, and which requests were begun and issued
      record the run. */
  datatype State = State(
    asyncs: map<Key, seq<Callback>>, queued: seq<Key>, pending: int, down: bool,
    inFlight: multiset<Key>, asked: map<Callback, Key>, fired: seq<Firing>, refused: set<Callback>,
    begun: seq<Key>, issued: seq<Key>)

  // ---------------------------------------------------------------- steps

  function Fire(cbs: seq<Callback>, key: Key, o: Outcome): (r: seq<Firing>)
    ensures |r| == |cbs| && forall i :: 0 <= i < |r| ==> r[i] == Firing(cbs[i], key, o)
  {
    seq(|cbs|, i requires 0 <= i < |cbs| => Firing(cbs[i], key, o))
  }

  /** The key under which the reply to a request looks for it. */
  function ReplyKey(key: Key): Key {
    match key
    case Named(rrtype, name) => if rrtype == NS_T_AAAA then Named(NS_T_A, name)
        else if rrtype == NS_T_PTR then Address(0) else key
    case Address(_) => key
  }

  /** Lookups whose replies find the request they belong to. */
  predicate Regular(key: Key) { key.Named? ==> key.rrtype != NS_T_AAAA && key.rrtype != NS_T_PTR }

  /** A reply: call everyone waiting and forget the request, unless there is nothing to tell them. */
  function Checked(s: State, key: Key, reply: Reply): State {
    if key !in s.asyncs || (!reply.timeout && reply.cached.None?) then s
    else
      var o := if reply.timeout then TimedOut else Resolved(reply.cached.value);
      s.(asyncs := s.asyncs - {key}, pending := s.pending - 1, fired := s.fired + Fire(s.asyncs[key], key, o))
  }

  /** Make the first request of the queue; it may be replied to while it is being made. */
  function IssuedOne(s: State, made: Made): State
    requires s.queued != []
  {
    var key := s.queued[0];
    var s1 := s.(queued := s.queued[1..]);
    var s2 := if made.AtOnce? then Checked(s1, ReplyKey(key), made.reply)
        else s1.(inFlight := s1.inFlight + multiset{key});
    s2.(pending := s2.pending + 1, issued := s2.issued + [key])
  }

  /** Issue requests while there are any and slots are free. */
  function Issued(s: State, made: seq<Made>): State
    decreases |s.queued|
  {
    if s.queued == [] || s.pending >= MAX_PENDING_REQUESTS then s
    else if made == [] then Issued(IssuedOne(s, Later), [])
    else Issued(IssuedOne(s, made[0]), made[1..])
  }

  /** A lookup that is not answered at once joins the request for its key, a new one if there is none. */
  function Joined(s: State, key: Key, cb: Callback): State {
    if key in s.asyncs then s.(asyncs := s.asyncs[key := s.asyncs[key] + [cb]], asked := s.asked[cb := key])
    else s.(asyncs := s.asyncs[key := [cb]], queued := s.queued + [key], asked := s.asked[cb := key],
            begun := s.begun + [key])
  }

  datatype Event =
    | Lookup(key: Key, cb: Callback, known: Option<nat>, made: seq<Made>)
    | Replied(key: Key, reply: Reply)
    | Process(made: seq<Made>)
    | Done

  function Step(s: State, e: Event): State {
    match e
    case Lookup(key, cb, known, made) =>
      if s.down then s.(asked := s.asked[cb := key], refused := s.refused + {cb})
      else if known.Some? then
          s.(asked := s.asked[cb := key], fired := s.fired + [Firing(cb, key, Resolved(known.value))])
      else Issued(Joined(s, key, cb), made)
    case Replied(key, reply) => Checked(s.(inFlight := s.inFlight - multiset{key}), ReplyKey(key), reply)
    case Process(made) => Issued(s, made)
    case Done => s.(down := true)
  }

  /** Lookups bring their own callback; a reply is to a request in flight. */
  ghost predicate Allowed(s: State, e: Event) {
    match e
    case Lookup(_, cb, _, _) => cb !in s.asked
    case Replied(key, _) => key in s.inFlight
    case _ => true
  }

  // ---------------------------------------------------------------- what every step keeps

  /** The queue and the issued requests make up all requests; what is issued, and so what is in flight,
      is bounded. */
  ghost predicate Balanced(s: State) {
    && s.pending + |s.queued| == |s.asyncs|
    && |s.inFlight| <= s.pending <= MAX_PENDING_REQUESTS
  }

  /** Where callbacks are: each waits in one place, under the key it asked for, or has been called once
      or refused. */
  ghost predicate Accounted(s: State) {
    && (forall k, i :: k in s.asyncs && 0 <= i < |s.asyncs[k]| ==> Waits(s, k, s.asyncs[k][i]))
    && (forall k, i, j :: k in s.asyncs && 0 <= i < j < |s.asyncs[k]| ==> s.asyncs[k][i] != s.asyncs[k][j])
    && (forall i :: 0 <= i < |s.fired| ==> Fired(s, s.fired[i]))
    && (forall i, j :: 0 <= i < j < |s.fired| ==> s.fired[i].cb != s.fired[j].cb)
    && (forall cb :: cb in s.refused ==> cb in s.asked)
    && (forall cb :: cb in s.asked ==> Found(s, cb))
  }

  ghost predicate Waits(s: State, k: Key, cb: Callback) {
    cb in s.asked && s.asked[cb] == k && cb !in s.refused && !Called(s.fired, cb)
  }

  ghost predicate Called(fired: seq<Firing>, cb: Callback) { exists i :: 0 <= i < |fired| && fired[i].cb == cb }

  ghost predicate Fired(s: State, f: Firing) { f.cb in s.asked && s.asked[f.cb] == f.key && f.cb !in s.refused }

  ghost predicate Found(s: State, cb: Callback)
    requires cb in s.asked
  {
    || cb in s.refused
    || Called(s.fired, cb)
    || (s.asked[cb] in s.asyncs && cb in s.asyncs[s.asked[cb]])
  }

  ghost predicate Inv(s: State) { Balanced(s) && Accounted(s) }

  function Start(): State { State(map[], [], 0, false, multiset{}, map[], [], {}, [], []) }

  // ---------------------------------------------------------------- counting

  lemma MapMinus(m: map<Key, seq<Callback>>, key: Key)
    requires key in m
    ensures |m - {key}| == |m| - 1
  {
    assert (m - {key}).Keys == m.Keys - {key};
    assert |m.Keys| == |m| && |(m - {key}).Keys| == |m - {key}|;
  }

  lemma MapPlus(m: map<Key, seq<Callback>>, key: Key, v: seq<Callback>)
    ensures |m[key := v]| == if key in m then |m| else |m| + 1
  {
    assert m[key := v].Keys == m.Keys + {key};
    assert |m.Keys| == |m| && |m[key := v].Keys| == |m[key := v]|;
  }

  // ---------------------------------------------------------------- replies

  lemma CheckedBalance(s: State, key: Key, reply: Reply)
    ensures var s' := Checked(s, key, reply);
            && s'.pending - |s'.asyncs| == s.pending - |s.asyncs| && s.pending - 1 <= s'.pending <= s.pending
            && s'.queued == s.queued && s'.inFlight == s.inFlight
  {
    if key in s.asyncs {
      MapMinus(s.asyncs, key);
    }
  }

  lemma CalledJoin(a: seq<Firing>, b: seq<Firing>, cb: Callback)
    ensures Called(a + b, cb) <==> Called(a, cb) || Called(b, cb)
  {
    if Called(a, cb) {
      var i :| 0 <= i < |a| && a[i].cb == cb;
      assert (a + b)[i].cb == cb;
    }
    if Called(b, cb) {
      var i :| 0 <= i < |b| && b[i].cb == cb;
      assert (a + b)[|a| + i].cb == cb;
    }
  }

  lemma CalledBy(cbs: seq<Callback>, key: Key, o: Outcome, cb: Callback)
    ensures Called(Fire(cbs, key, o), cb) <==> cb in cbs
  {
    if cb in cbs {
      var i :| 0 <= i < |cbs| && cbs[i] == cb;
      assert Fire(cbs, key, o)[i].cb == cb;
    }
  }

  /** Everyone waiting under a key is called, once, and nobody else. */
  lemma CheckedAccount(s: State, key: Key, reply: Reply)
    requires Accounted(s)
    ensures Accounted(Checked(s, key, reply))
  {
    var s' := Checked(s, key, reply);
    if key in s.asyncs && (reply.timeout || reply.cached.Some?) {
      var o := if reply.timeout then TimedOut else Resolved(reply.cached.value);
      var cbs := s.asyncs[key];
      var more := Fire(cbs, key, o);
      assert s'.fired == s.fired + more;
      hide Called, Fire;
      forall cb ensures Called(s'.fired, cb) <==> Called(s.fired, cb) || cb in cbs {
        CalledJoin(s.fired, more, cb);
        CalledBy(cbs, key, o, cb);
      }
      forall k, i | k in s'.asyncs && 0 <= i < |s'.asyncs[k]| ensures Waits(s', k, s'.asyncs[k][i]) {
        assert Waits(s, k, s.asyncs[k][i]);
      }
      FiredKeeps(s, s', key, cbs, more, o);
      forall cb | cb in s'.asked ensures Found(s', cb) {
        assert Found(s, cb);
      }
    }
  }

  lemma FiredKeeps(s: State, s': State, key: Key, cbs: seq<Callback>, more: seq<Firing>, o: Outcome)
    requires Accounted(s) && key in s.asyncs && s.asyncs[key] == cbs && more == Fire(cbs, key, o)
    requires s'.fired == s.fired + more && s'.asked == s.asked && s'.refused == s.refused
    ensures forall i :: 0 <= i < |s'.fired| ==> Fired(s', s'.fired[i])
    ensures forall i, j :: 0 <= i < j < |s'.fired| ==> s'.fired[i].cb != s'.fired[j].cb
  {
    var n := |s.fired|;
    forall i | 0 <= i < |s'.fired| ensures Fired(s', s'.fired[i]) {
      if i < n {
        assert Fired(s, s.fired[i]);
      } else {
        assert s'.fired[i] == more[i - n] && Waits(s, key, cbs[i - n]);
      }
    }
    forall i, j | 0 <= i < j < |s'.fired| ensures s'.fired[i].cb != s'.fired[j].cb {
      if j >= n {
        assert s'.fired[j].cb == cbs[j - n] && Waits(s, key, cbs[j - n]);
        if i < n {
          assert s'.fired[i] == s.fired[i];
        } else {
          assert s'.fired[i].cb == cbs[i - n];
        }
      }
    }
  }

  // ---------------------------------------------------------------- issuing

  /** Only who waits, and who has been called, matters to the account. */
  lemma SameAccount(s: State, s': State)
    requires Accounted(s) && s'.asyncs == s.asyncs && s'.asked == s.asked && s'.fired == s.fired &&
             s'.refused == s.refused
    ensures Accounted(s')
  {
    forall k, i | k in s'.asyncs && 0 <= i < |s'.asyncs[k]| ensures Waits(s', k, s'.asyncs[k][i]) {
      assert Waits(s, k, s.asyncs[k][i]);
    }
    forall i | 0 <= i < |s'.fired| ensures Fired(s', s'.fired[i]) {
      assert Fired(s, s.fired[i]);
    }
    forall cb | cb in s'.asked ensures Found(s', cb) {
      assert Found(s, cb);
    }
  }

  lemma IssuedOneKeeps(s: State, made: Made)
    requires Inv(s) && s.queued != [] && s.pending < MAX_PENDING_REQUESTS
    ensures Inv(IssuedOne(s, made))
  {
    hide Accounted, Checked;
    var key := s.queued[0];
    var s1 := s.(queued := s.queued[1..]);
    SameAccount(s, s1);
    if made.AtOnce? {
      CheckedBalance(s1, ReplyKey(key), made.reply);
      CheckedAccount(s1, ReplyKey(key), made.reply);
      SameAccount(Checked(s1, ReplyKey(key), made.reply), IssuedOne(s, made));
    } else {
      SameAccount(s1, IssuedOne(s, made));
    }
  }

  lemma {:induction false} IssuedKeeps(s: State, made: seq<Made>)
    requires Inv(s)
    ensures Inv(Issued(s, made))
    ensures Issued(s, made).queued != [] ==> Issued(s, made).pending == MAX_PENDING_REQUESTS
    decreases |s.queued|
  {
    hide Accounted, IssuedOne;
    if s.queued != [] && s.pending < MAX_PENDING_REQUESTS {
      QueueShrinks(s, if made == [] then Later else made[0]);
      IssuedOneKeeps(s, if made == [] then Later else made[0]);
      IssuedKeeps(IssuedOne(s, if made == [] then Later else made[0]), if made == [] then [] else made[1..]);
    }
  }

  lemma QueueShrinks(s: State, made: Made)
    requires s.queued != []
    ensures IssuedOne(s, made).queued == s.queued[1..]
  {
  }

  /** One turn of the issuing loop. */
  lemma IssuedTurn(s: State, made: seq<Made>)
    ensures s.queued == [] || s.pending >= MAX_PENDING_REQUESTS ==> Issued(s, made) == s
    ensures s.queued != [] && s.pending < MAX_PENDING_REQUESTS ==>
              Issued(s, made) ==
                  Issued(IssuedOne(s, if made == [] then Later else made[0]), if made == [] then [] else made[1..])
  {
  }

  // ---------------------------------------------------------------- lookups

  lemma JoinedBalance(s: State, key: Key, cb: Callback)
    requires Balanced(s)
    ensures Balanced(Joined(s, key, cb))
  {
    MapPlus(s.asyncs, key, if key in s.asyncs then s.asyncs[key] + [cb] else [cb]);
  }

  lemma JoinedAccount(s: State, key: Key, cb: Callback)
    requires Accounted(s) && cb !in s.asked
    ensures Accounted(Joined(s, key, cb))
  {
    var s' := Joined(s, key, cb);
    var before := if key in s.asyncs then s.asyncs[key] else [];
    assert s'.asyncs[key] == before + [cb];
    NeverSeen(s, cb);
    hide Called;
    forall k, i | k in s'.asyncs && 0 <= i < |s'.asyncs[k]| ensures Waits(s', k, s'.asyncs[k][i]) {
      if k != key || i < |before| {
        assert Waits(s, k, s.asyncs[k][i]);
      }
    }
    forall k, i, j | k in s'.asyncs && 0 <= i < j < |s'.asyncs[k]| ensures s'.asyncs[k][i] != s'.asyncs[k][j] {
      if k == key && j == |before| {
        assert Waits(s, k, s.asyncs[k][i]);
      } else {
        assert s.asyncs[k][i] != s.asyncs[k][j];
      }
    }
    forall i | 0 <= i < |s'.fired| ensures Fired(s', s'.fired[i]) {
      assert Fired(s, s.fired[i]);
    }
    forall c | c in s'.asked ensures Found(s', c) {
      if c != cb {
        assert Found(s, c);
      } else {
        assert s'.asyncs[key][|before|] == cb;
      }
    }
  }

  /** A callback that has not asked has not been called either. */
  lemma NeverSeen(s: State, cb: Callback)
    requires Accounted(s) && cb !in s.asked
    ensures !Called(s.fired, cb) && cb !in s.refused
  {
    forall i | 0 <= i < |s.fired| ensures s.fired[i].cb != cb {
      assert Fired(s, s.fired[i]);
    }
  }

  /** A callback that is answered or refused at once. */
  lemma AnsweredAccount(s: State, key: Key, cb: Callback, answer: Option<nat>)
    requires Accounted(s) && cb !in s.asked
    ensures Accounted(if answer.Some? then
            s.(asked := s.asked[cb := key], fired := s.fired + [Firing(cb, key, Resolved(answer.value))])
                      else s.(asked := s.asked[cb := key], refused := s.refused + {cb}))
  {
    var s' := if answer.Some? then
        s.(asked := s.asked[cb := key], fired := s.fired + [Firing(cb, key, Resolved(answer.value))])
              else s.(asked := s.asked[cb := key], refused := s.refused + {cb});
    NeverSeen(s, cb);
    var more := if answer.Some? then [Firing(cb, key, Resolved(answer.value))] else [];
    assert s'.fired == s.fired + more;
    forall c ensures Called(s'.fired, c) <==> Called(s.fired, c) || (answer.Some? && c == cb) {
      CalledJoin(s.fired, more, c);
      assert answer.Some? ==> (Called(more, c) <==> c == cb) by {
        assert answer.Some? ==> more[0].cb == cb;
      }
    }
    hide Called;
    forall k, i | k in s'.asyncs && 0 <= i < |s'.asyncs[k]| ensures Waits(s', k, s'.asyncs[k][i]) {
      assert Waits(s, k, s.asyncs[k][i]);
    }
    forall i | 0 <= i < |s'.fired| ensures Fired(s', s'.fired[i]) {
      assert i < |s.fired| ==> Fired(s, s.fired[i]);
    }
    forall i, j | 0 <= i < j < |s'.fired| ensures s'.fired[i].cb != s'.fired[j].cb {
      assert Fired(s, s.fired[i]);
    }
    forall c | c in s'.asked ensures Found(s', c) {
      assert c != cb ==> Found(s, c);
    }
  }

  // ---------------------------------------------------------------- runs

  lemma StepKeeps(s: State, e: Event)
    requires Inv(s) && Allowed(s, e)
    ensures Inv(Step(s, e))
    ensures (e.Lookup? && !s.down && e.known.None?) || e.Process? ==>
            Step(s, e).queued != [] ==> Step(s, e).pending == MAX_PENDING_REQUESTS
  {
    hide Accounted, Issued, Checked, Joined;
    match e {
      case Lookup(key, cb, known, made) =>
        if s.down {
          AnsweredAccount(s, key, cb, None);
        } else if known.Some? {
          AnsweredAccount(s, key, cb, known);
        } else {
          JoinedBalance(s, key, cb);
          JoinedAccount(s, key, cb);
          IssuedKeeps(Joined(s, key, cb), made);
        }
      case Replied(key, reply) =>
        var s1 := s.(inFlight := s.inFlight - multiset{key});
        SameAccount(s, s1);
        CheckedBalance(s1, ReplyKey(key), reply);
        CheckedAccount(s1, ReplyKey(key), reply);
      case Process(made) =>
        IssuedKeeps(s, made);
      case Done =>
        SameAccount(s, Step(s, e));
    }
  }

  function Run(s: State, es: seq<Event>): State
    decreases |es|
  {
    if es == [] then s else Run(Step(s, es[0]), es[1..])
  }

  ghost predicate AllowedRun(s: State, es: seq<Event>)
    decreases |es|
  {
    es == [] || (Allowed(s, es[0]) && AllowedRun(Step(s, es[0]), es[1..]))
  }

  lemma {:induction false} RunKeeps(s: State, es: seq<Event>)
    requires Inv(s) && AllowedRun(s, es)
    ensures Inv(Run(s, es))
    decreases |es|
  {
    if es != [] {
      hide Inv, Step, Allowed;
      StepKeeps(s, es[0]);
      RunKeeps(Step(s, es[0]), es[1..]);
    }
  }

  lemma StartHolds()
    ensures Inv(Start())
  {
  }

  /** In every run: no more requests are issued than there are slots, the queue and the issued requests
      are all the requests, and every callback is called at most once, for the key it asked for. */
  lemma EveryRun(es: seq<Event>)
    requires AllowedRun(Start(), es)
    ensures var s := Run(Start(), es);
            && |s.inFlight| <= s.pending <= MAX_PENDING_REQUESTS
            && s.pending + |s.queued| == |s.asyncs|
            && (forall i, j :: 0 <= i < j < |s.fired| ==> s.fired[i].cb != s.fired[j].cb)
            && (forall i :: 0 <= i < |s.fired| ==> s.fired[i].cb in s.asked && s.asked[s.fired[i].cb] == s.fired[i].key)
  {
    StartHolds();
    RunKeeps(Start(), es);
    var s := Run(Start(), es);
    hide Run, AllowedRun;
    forall i | 0 <= i < |s.fired| ensures s.fired[i].cb in s.asked && s.asked[s.fired[i].cb] == s.fired[i].key {
      assert Fired(s, s.fired[i]);
    }
  }

  // ---------------------------------------------------------------- regular runs

  /** The queue lists requests once each, and none that is gone or in flight. */
  ghost predicate Scheduled(s: State) {
    && Distinct(s.queued) && (forall k :: k in s.queued ==> k in s.asyncs)
    && (forall k :: k in s.asyncs ==> Regular(k))
    && (forall k :: k in s.inFlight ==> k in s.asyncs && k !in s.queued && s.inFlight[k] == 1)
  }

  lemma CheckedSchedule(s: State, key: Key, reply: Reply)
    requires Scheduled(s) && key !in s.queued && key !in s.inFlight
    ensures Scheduled(Checked(s, key, reply))
  {
  }

  lemma IssuedOneSchedule(s: State, made: Made)
    requires Scheduled(s) && s.queued != []
    ensures Scheduled(IssuedOne(s, made))
  {
    var key := s.queued[0];
    var s1 := s.(queued := s.queued[1..]);
    assert s.queued == [key] + s1.queued;
    assert key in s.queued && forall k :: k in s1.queued ==> k in s.queued;
    ReplyFindsItsRequest(key);
    CheckedSchedule(s1, key, if made.AtOnce? then made.reply else Reply(false, None));
  }

  lemma {:induction false} IssuedSchedule(s: State, made: seq<Made>)
    requires Scheduled(s)
    ensures Scheduled(Issued(s, made))
    decreases |s.queued|
  {
    hide Scheduled, IssuedOne, Issued;
    IssuedTurn(s, made);
    if s.queued != [] && s.pending < MAX_PENDING_REQUESTS {
      QueueShrinks(s, if made == [] then Later else made[0]);
      IssuedOneSchedule(s, if made == [] then Later else made[0]);
      IssuedSchedule(IssuedOne(s, if made == [] then Later else made[0]), if made == [] then [] else made[1..]);
    }
  }

  lemma JoinedSchedule(s: State, key: Key, cb: Callback)
    requires Scheduled(s) && Regular(key)
    ensures Scheduled(Joined(s, key, cb))
  {
  }

  lemma RepliedSchedule(s: State, key: Key, reply: Reply)
    requires Scheduled(s) && key in s.inFlight
    ensures Scheduled(Checked(s.(inFlight := s.inFlight - multiset{key}), ReplyKey(key), reply))
  {
    hide Checked;
    ReplyFindsItsRequest(key);
    CheckedSchedule(s.(inFlight := s.inFlight - multiset{key}), key, reply);
  }

  lemma StepSchedule(s: State, e: Event)
    requires Scheduled(s) && Allowed(s, e) && (e.Lookup? ==> Regular(e.key))
    ensures Scheduled(Step(s, e))
  {
    hide Issued, Checked, Joined;
    match e {
      case Lookup(key, cb, known, made) =>
        if !s.down && known.None? {
          JoinedSchedule(s, key, cb);
          IssuedSchedule(Joined(s, key, cb), made);
        }
      case Replied(key, reply) =>
        RepliedSchedule(s, key, reply);
      case Process(made) =>
        IssuedSchedule(s, made);
      case Done =>
    }
  }

  /** In a run of regular lookups the queue is always in order. */
  lemma {:induction false} RegularRun(s: State, es: seq<Event>)
    requires Scheduled(s) && AllowedRun(s, es) && forall e :: e in es && e.Lookup? ==> Regular(e.key)
    ensures Scheduled(Run(s, es))
    decreases |es|
  {
    if es != [] {
      hide Scheduled, Step, Allowed, Regular;
      assert es[0] in es;
      StepSchedule(s, es[0]);
      RegularRun(Step(s, es[0]), es[1..]);
    }
  }

  lemma RegularFromStart(es: seq<Event>)
    requires AllowedRun(Start(), es) && forall e :: e in es && e.Lookup? ==> Regular(e.key)
    ensures Scheduled(Run(Start(), es))
  {
    assert Scheduled(Start());
    RegularRun(Start(), es);
  }

  // ---------------------------------------------------------------- lookups by other keys

  /** The reply to a request looks for it under the request's own key exactly for regular lookups. */
  lemma ReplyFindsItsRequest(key: Key)
    ensures ReplyKey(key) == key <==> Regular(key)
    ensures Regular(ReplyKey(key))
  {
  }

  /** The queue lists only requests that are still there. */
  ghost predicate Live(s: State) { forall k :: k in s.queued ==> k in s.asyncs }

  /** A reply leaves the queue in order exactly when the key it looks under is not queued, or there is
      nothing to tell. */
  lemma QueueStaysLive(s: State, key: Key, reply: Reply)
    requires Live(s)
    ensures Live(Checked(s, key, reply)) <==> key !in s.queued || (!reply.timeout && reply.cached.None?)
  {
  }

  /** Every state is live that issuing goes through, with replies that come at once. */
  ghost predicate LiveIssuing(s: State, made: seq<Made>)
    decreases |s.queued|
  {
    Live(s) && (s.queued != [] && s.pending < MAX_PENDING_REQUESTS ==>
      LiveIssuing(IssuedOne(s, if made == [] then Later else made[0]), if made == [] then [] else made[1..]))
  }

  /** No reply that comes at once, with something to tell, looks under a key still queued. */
  ghost predicate OrderlyIssuing(s: State, made: seq<Made>)
    decreases |s.queued|
  {
    s.queued != [] && s.pending < MAX_PENDING_REQUESTS ==>
      && (made != [] && made[0].AtOnce? && Tells(made[0].reply) ==> ReplyKey(s.queued[0]) !in s.queued[1..])
      && OrderlyIssuing(IssuedOne(s, if made == [] then Later else made[0]), if made == [] then [] else made[1..])
  }

  ghost predicate Tells(reply: Reply) { reply.timeout || reply.cached.Some? }

  lemma {:induction false} OrderlyIsLive(s: State, made: seq<Made>)
    requires Live(s)
    ensures LiveIssuing(s, made) <==> OrderlyIssuing(s, made)
    decreases |s.queued|
  {
    hide IssuedOne;
    if s.queued != [] && s.pending < MAX_PENDING_REQUESTS {
      var how := if made == [] then Later else made[0];
      QueueShrinks(s, how);
      OneStaysLive(s, how);
      if Live(IssuedOne(s, how)) {
        OrderlyIsLive(IssuedOne(s, how), if made == [] then [] else made[1..]);
      }
    }
  }

  lemma OneStaysLive(s: State, how: Made)
    requires Live(s) && s.queued != []
    ensures Live(IssuedOne(s, how)) <==> !(how.AtOnce? && Tells(how.reply)) || ReplyKey(s.queued[0]) !in s.queued[1..]
  {
    var s1 := s.(queued := s.queued[1..]);
    assert forall k :: k in s1.queued ==> k in s.queued;
    if how.AtOnce? {
      QueueStaysLive(s1, ReplyKey(s.queued[0]), how.reply);
    }
  }

  lemma {:induction false} LiveEnd(s: State, made: seq<Made>)
    requires LiveIssuing(s, made)
    ensures Live(Issued(s, made))
    decreases |s.queued|
  {
    hide IssuedOne, Live;
    if s.queued != [] && s.pending < MAX_PENDING_REQUESTS {
      var how := if made == [] then Later else made[0];
      QueueShrinks(s, how);
      LiveEnd(IssuedOne(s, how), if made == [] then [] else made[1..]);
    }
  }

  /** Every state is live that an event goes through. */
  ghost predicate LiveStep(s: State, e: Event) {
    match e
    case Lookup(key, cb, known, made) => if s.down || known.Some? then Live(s)
        else LiveIssuing(Joined(s, key, cb), made)
    case Process(made) => LiveIssuing(s, made)
    case _ => Live(Step(s, e))
  }

  /** No reply in the event, with something to tell, looks under a key that is queued. */
  ghost predicate OrderlyStep(s: State, e: Event) {
    match e
    case Lookup(key, cb, known, made) => s.down || known.Some? || OrderlyIssuing(Joined(s, key, cb), made)
    case Process(made) => OrderlyIssuing(s, made)
    case Replied(key, reply) => Tells(reply) ==> ReplyKey(key) !in s.queued
    case Done => true
  }

  lemma StepLive(s: State, e: Event)
    requires Live(s)
    ensures LiveStep(s, e) <==> OrderlyStep(s, e)
    ensures LiveStep(s, e) ==> Live(Step(s, e))
  {
    hide LiveIssuing, OrderlyIssuing, Issued;
    match e {
      case Lookup(key, cb, known, made) =>
        if !s.down && known.None? {
          OrderlyIsLive(Joined(s, key, cb), made);
          if LiveIssuing(Joined(s, key, cb), made) {
            LiveEnd(Joined(s, key, cb), made);
          }
        }
      case Process(made) =>
        OrderlyIsLive(s, made);
        if LiveIssuing(s, made) {
          LiveEnd(s, made);
        }
      case Replied(key, reply) =>
        QueueStaysLive(s.(inFlight := s.inFlight - multiset{key}), ReplyKey(key), reply);
      case Done =>
    }
  }

  ghost predicate LiveRun(s: State, es: seq<Event>)
    decreases |es|
  {
    es == [] || (LiveStep(s, es[0]) && LiveRun(Step(s, es[0]), es[1..]))
  }

  ghost predicate OrderlyRun(s: State, es: seq<Event>)
    decreases |es|
  {
    es == [] || (OrderlyStep(s, es[0]) && OrderlyRun(Step(s, es[0]), es[1..]))
  }

  /** Throughout a run the queue lists only requests that are still there, exactly when no reply with
      something to tell ever looks under a key that is queued. */
  lemma {:induction false} RunStaysLive(s: State, es: seq<Event>)
    requires Live(s)
    ensures LiveRun(s, es) <==> OrderlyRun(s, es)
    decreases |es|
  {
    hide LiveStep, OrderlyStep, Step, Live;
    if es != [] {
      StepLive(s, es[0]);
      if LiveStep(s, es[0]) {
        RunStaysLive(Step(s, es[0]), es[1..]);
      }
    }
  }

  /** Other lookups are never answered: whatever happens, their request stays. */
  lemma {:induction false} IrregularStays(s: State, es: seq<Event>, key: Key)
    requires key in s.asyncs && !Regular(key)
    ensures key in Run(s, es).asyncs && s.asyncs[key] <= Run(s, es).asyncs[key]
    decreases |es|
  {
    if es != [] {
      hide Run, Step;
      StaysOneStep(s, es[0], key);
      IrregularStays(Step(s, es[0]), es[1..], key);
      RunUnfold(s, es);
    }
  }

  lemma RunUnfold(s: State, es: seq<Event>)
    requires es != []
    ensures Run(s, es) == Run(Step(s, es[0]), es[1..])
  {
  }

  lemma StaysOneStep(s: State, e: Event, key: Key)
    requires key in s.asyncs && !Regular(key)
    ensures key in Step(s, e).asyncs && s.asyncs[key] <= Step(s, e).asyncs[key]
  {
    match e {
      case Lookup(k, cb, known, made) =>
        if !s.down && known.None? {
          StaysIssued(Joined(s, k, cb), made, key);
        }
      case Process(made) =>
        StaysIssued(s, made, key);
      case Replied(k, _) =>
        ReplyFindsItsRequest(k);
      case Done =>
    }
  }

  lemma {:induction false} StaysIssued(s: State, made: seq<Made>, key: Key)
    requires key in s.asyncs && !Regular(key)
    ensures key in Issued(s, made).asyncs && Issued(s, made).asyncs[key] == s.asyncs[key]
    decreases |s.queued|
  {
    if s.queued != [] && s.pending < MAX_PENDING_REQUESTS {
      ReplyFindsItsRequest(s.queued[0]);
      StaysIssued(IssuedOne(s, if made == [] then Later else made[0]), if made == [] then [] else made[1..], key);
    }
  }

  lemma {:induction false} RunAppends(s: State, es: seq<Event>, e: Event)
    ensures Run(s, es + [e]) == Step(Run(s, es), e)
    ensures AllowedRun(s, es + [e]) <==> AllowedRun(s, es) && Allowed(Run(s, es), e)
    decreases |es|
  {
    hide Step, Allowed;
    var all := es + [e];
    if es == [] {
      assert all[0] == e && all[1..] == [];
    } else {
      assert all[0] == es[0] && all[1..] == es[1..] + [e];
      RunAppends(Step(s, es[0]), es[1..], e);
    }
  }

  /** A lookup of AAAA records of a name and n lookups by address, all issued. */
  ghost predicate Busy(s: State, n: nat, name: string) {
    && !s.down && s.queued == [] && s.pending == n + 1 && Named(NS_T_AAAA, name) in s.inFlight
    && (forall k :: k in s.asyncs ==> k == Named(NS_T_AAAA, name) || (k.Address? && k.addr < n))
    && (forall cb :: cb in s.asked ==> cb <= n)
  }

  /** A lookup by a new key that finds a free slot is issued at once. */
  lemma IssuesAtOnce(s: State, key: Key, cb: Callback)
    requires !s.down && s.queued == [] && s.pending < MAX_PENDING_REQUESTS && key !in s.asyncs
    ensures Step(s, Lookup(key, cb, None, [])) ==
            s.(asyncs := s.asyncs[key := [cb]], asked := s.asked[cb := key], inFlight := s.inFlight + multiset{key},
                pending := s.pending + 1, begun := s.begun + [key], issued := s.issued + [key])
  {
    hide Issued;
    var s1 := Joined(s, key, cb);
    IssuedTurn(s1, []);
    assert s1.queued == [key] && s1.queued[1..] == [];
    assert IssuedOne(s1, Later).queued == [];
    IssuedTurn(IssuedOne(s1, Later), []);
  }

  lemma {:induction false} GetsBusy(n: nat, name: string) returns (es: seq<Event>)
    requires n < MAX_PENDING_REQUESTS
    ensures AllowedRun(Start(), es) && Busy(Run(Start(), es), n, name)
  {
    hide Run, AllowedRun, Step;
    var key := if n == 0 then Named(NS_T_AAAA, name) else Address(n - 1);
    var e := Lookup(key, n, None, []);
    if n == 0 {
      es := [];
      NoRun(Start());
    } else {
      es := GetsBusy(n - 1, name);
    }
    RunAppends(Start(), es, e);
    IssuesAtOnce(Run(Start(), es), key, n);
    es := es + [e];
  }

  lemma NoRun(s: State)
    ensures Run(s, []) == s && AllowedRun(s, [])
  {
  }

  /** With all slots taken, the reply to a lookup of AAAA records removes the queued request for the A
      records of the same name: its callback is told before the request was made, and the queue lists
      a request that is gone. */
  lemma QueuedButGone(name: string) returns (es: seq<Event>)
    ensures AllowedRun(Start(), es)
    ensures var s := Run(Start(), es); Named(NS_T_A, name) in s.queued && !Live(s) && s.fired != []
  {
    hide Run, AllowedRun, Step;
    var n, key := MAX_PENDING_REQUESTS - 1, Named(NS_T_A, name);
    es := GetsBusy(n, name);
    var s := Run(Start(), es);
    var e, f := Lookup(key, n + 1, None, []), Replied(Named(NS_T_AAAA, name), Reply(true, None));
    RunAppends(Start(), es, e);
    RunAppends(Start(), es + [e], f);
    TakenFromQueue(s, n, name);
    es := es + [e] + [f];
  }

  lemma TakenFromQueue(s: State, n: nat, name: string)
    requires Busy(s, n, name) && n + 1 == MAX_PENDING_REQUESTS
    ensures var e, f := Lookup(Named(NS_T_A, name), n + 1, None, []),
            Replied(Named(NS_T_AAAA, name), Reply(true, None));
            && Allowed(s, e) && Allowed(Step(s, e), f)
            && var s' := Step(Step(s, e), f); Named(NS_T_A, name) in s'.queued && !Live(s') && s'.fired != []
  {
    var key := Named(NS_T_A, name);
    var s1 := Joined(s, key, n + 1);
    assert key !in s.asyncs;
    IssuedTurn(s1, []);
    assert s1.queued == [key];
    assert |Fire(s1.asyncs[key], key, TimedOut)| == 1;
  }
}
