/** The manager of asynchronous lookups as an object whose queue, requests and counters change step by
    step. */
module Dns {
  import opened Options
  import opened DnsRun

  class DnsMgr {
    var asyncs: map<Key, seq<Callback>>
    var queued: seq<Key>
    var pending: int
    var shuttingDown: bool
    ghost var inFlight: multiset<Key>
    ghost var asked: map<Callback, Key>
    ghost var fired: seq<Firing>
    ghost var refused: set<Callback>
    ghost var begun: seq<Key>
    ghost var issued: seq<Key>

    ghost function Value(): State
      reads this
    {
      State(asyncs, queued, pending, shuttingDown, inFlight, asked, fired, refused, begun, issued)
    }

    constructor ()
      ensures Value() == Start() && Inv(Value())
    {
      asyncs, queued, pending, shuttingDown := map[], [], 0, false;
      inFlight, asked, fired, refused, begun, issued := multiset{}, map[], [], {}, [], [];
      new;
      StartHolds();
    }

    /** Call everyone waiting under a key, in the order in which they asked. */
    method CallAll(key: Key, o: Outcome)
      requires key in asyncs
      modifies this`fired
      ensures fired == old(fired) + Fire(asyncs[key], key, o)
    {
      var cbs := asyncs[key];
      for i := 0 to |cbs|
        invariant fired == old(fired) + Fire(cbs, key, o)[..i]
      {
        fired := fired + [Firing(cbs[i], key, o)];
      }
      assert Fire(cbs, key, o)[..|cbs|] == Fire(cbs, key, o);
    }

    /** A reply came in, or none will. */
    method CheckAsyncRequest(key: Key, timeout: bool, cached: Option<nat>)
      modifies this`asyncs, this`pending, this`fired
      ensures Value() == Checked(old(Value()), key, Reply(timeout, cached))
    {
      if key in asyncs {
        if timeout {
          CallAll(key, TimedOut);
        } else if cached.Some? {
          CallAll(key, Resolved(cached.value));
        } else {
          return;
        }
        asyncs := asyncs - {key};
        pending := pending - 1;
      }
    }

    /** Send a request, to be replied to at once or later. */
    method MakeRequest(key: Key, how: Made)
      modifies this`asyncs, this`pending, this`fired, this`inFlight
      ensures Value() == if how.AtOnce? then Checked(old(Value()), ReplyKey(key), how.reply)
                         else old(Value()).(inFlight := old(inFlight) + multiset{key})
    {
      hide Checked;
      if how.AtOnce? {
        CheckAsyncRequest(ReplyKey(key), how.reply.timeout, how.reply.cached);
        assert how.reply == Reply(how.reply.timeout, how.reply.cached);
      } else {
        inFlight := inFlight + multiset{key};
      }
    }

    /** Make the first request of the queue. */
    method IssueFirst(how: Made)
      requires queued != []
      modifies this`asyncs, this`queued, this`pending, this`fired, this`inFlight, this`issued
      ensures Value() == IssuedOne(old(Value()), how) && |queued| == |old(queued)| - 1
    {
      hide Checked;
      var key := queued[0];
      queued := queued[1..];
      MakeRequest(key, how);
      pending, issued := pending + 1, issued + [key];
    }

    method IssueAsyncRequests(made: seq<Made>)
      modifies this`asyncs, this`queued, this`pending, this`fired, this`inFlight, this`issued
      ensures Value() == Issued(old(Value()), made)
    {
      hide Issued, IssuedOne;
      var made' := made;
      while queued != [] && pending < MAX_PENDING_REQUESTS
        invariant Issued(Value(), made') == Issued(old(Value()), made)
        decreases |queued|
      {
        IssuedTurn(Value(), made');
        IssueFirst(if made' == [] then Later else made'[0]);
        made' := if made' == [] then [] else made'[1..];
      }
      IssuedTurn(Value(), made');
    }

    /** Join the request for a key, a new one if there is none. */
    method Join(key: Key, cb: Callback)
      modifies this`asyncs, this`queued, this`asked, this`begun
      ensures Value() == Joined(old(Value()), key, cb)
    {
      asked := asked[cb := key];
      if key !in asyncs {
        queued, begun := queued + [key], begun + [key];
        asyncs := asyncs[key := []];
      }
      asyncs := asyncs[key := asyncs[key] + [cb]];
      if key !in old(asyncs) {
        assert [] + [cb] == [cb];
        assert asyncs == old(asyncs)[key := [cb]];
      }
    }

    /** An asynchronous lookup. What the cache holds, and what happens to the requests made, is given. */
    method Lookup(key: Key, cb: Callback, known: Option<nat>, made: seq<Made>)
      requires Inv(Value()) && cb !in asked
      modifies this
      ensures Value() == Step(old(Value()), DnsRun.Lookup(key, cb, known, made)) && Inv(Value())
    {
      hide Issued, Inv, Joined;
      StepKeeps(Value(), DnsRun.Lookup(key, cb, known, made));
      if shuttingDown {
        asked, refused := asked[cb := key], refused + {cb};
      } else if known.Some? {
        asked, fired := asked[cb := key], fired + [Firing(cb, key, Resolved(known.value))];
      } else {
        Join(key, cb);
        IssueAsyncRequests(made);
      }
    }

    /** The reply to a request in flight. */
    method ProcessAsyncResult(key: Key, timeout: bool, cached: Option<nat>)
      requires Inv(Value()) && key in inFlight
      modifies this
      ensures Value() == Step(old(Value()), Replied(key, Reply(timeout, cached))) && Inv(Value())
    {
      StepKeeps(Value(), Replied(key, Reply(timeout, cached)));
      hide Inv;
      inFlight := inFlight - multiset{key};
      CheckAsyncRequest(ReplyKey(key), timeout, cached);
    }

    method ProcessFd(made: seq<Made>)
      requires Inv(Value())
      modifies this
      ensures Value() == Step(old(Value()), Process(made)) && Inv(Value())
      ensures queued != [] ==> pending == MAX_PENDING_REQUESTS
    {
      StepKeeps(Value(), Process(made));
      hide Issued, Inv;
      IssueAsyncRequests(made);
    }
  }
}
