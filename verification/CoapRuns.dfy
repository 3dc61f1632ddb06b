/** Whole runs of the client against its token store and its clock. */
module CoapRuns {
  import opened Basics
  import opened Machine32
  import opened CoapRequests
  import opened CoapClient
  import opened ObservationThreads
  import Retransmission
  import ObserveOrder
  import Tokens

  // ---------------------------------------------------------------- tokens drawn from the store

  /** The token was handed out by a call of the token store whose number is in `used`. */
  ghost predicate WasDrawn(token: Token, seed: Token, used: set<nat>)
    requires |seed| == TOKEN_LEN
  {
    exists n :: n in used && token == Tokens.TokenAt(seed, n)
  }

  /** Every token held by a live request or a slot was handed out by such a call. */
  ghost predicate DrawnSoFar(t: Threads, seed: Token, used: set<nat>)
    requires |seed| == TOKEN_LEN
  {
    && (forall j :: 0 <= j < |t.client.engine.reqs| ==> WasDrawn(t.client.engine.reqs[j].token, seed, used))
    && (forall k: nat :: Held(t, k) ==> WasDrawn(t.client.slots[k].token, seed, used))
  }

  predicate NeedsToken(a: Action) {
    a.Request? || a.AddObserve?
  }

  /** The calls of a run of the store of fewer than 2^64. */
  ghost predicate InStore(n: nat) {
    0 < n < Tokens.TOKENS
  }

  predicate TakesNewToken(m: Move) {
    m.Do? && NeedsToken(m.a)
  }

  /** Each move of the run that needs a token has the one handed out by the call given in `draws`;
      `used` are the calls whose tokens were taken before. A token is taken by one request only, except
      that a blockwise transfer goes on with its own token once its request before has left the list.
      Nothing is asked of the order of the calls, and not every token need reach the list: tokens are
      drawn before a request is queued, by any thread, and queued requests can be refused or age out. */
  ghost predicate TakesTokens(t: Threads, moves: seq<Move>, seed: Token, draws: seq<nat>, used: set<nat>)
    requires |seed| == TOKEN_LEN
    decreases |moves|
  {
    && |draws| == |moves|
    && (moves == []
        || (&& TakesToken(t.client, moves[0], seed, draws[0], used)
            && TakesTokens(Step(t, moves[0]), moves[1..], seed, draws[1..], UsedAfter(moves[0], draws[0], used))))
  }

  ghost predicate TakesToken(c: Client, m: Move, seed: Token, n: nat, used: set<nat>)
    requires |seed| == TOKEN_LEN
  {
    TakesNewToken(m) ==>
      && InStore(n) && m.a.token == Tokens.TokenAt(seed, n)
      && (n !in used || (m.a.Request? && IsFresh(c, m.a.token)))
  }

  function UsedAfter(m: Move, n: nat, used: set<nat>): set<nat> {
    if TakesNewToken(m) then used + {n} else used
  }

  lemma MoreCalls(token: Token, seed: Token, used: set<nat>, n: nat)
    requires |seed| == TOKEN_LEN && WasDrawn(token, seed, used)
    ensures WasDrawn(token, seed, used + {n})
  {
    var m :| m in used && token == Tokens.TokenAt(seed, m);
    assert m in used + {n};
  }

  /** The token of a call that has not been used is fresh, in a store called fewer than 2^64 times. */
  lemma UnusedTokenIsFresh(t: Threads, seed: Token, used: set<nat>, n: nat)
    requires |seed| == TOKEN_LEN && DrawnSoFar(t, seed, used)
    requires InStore(n) && n !in used && forall m :: m in used ==> InStore(m)
    ensures IsFresh(t.client, Tokens.TokenAt(seed, n))
  {
    forall token | WasDrawn(token, seed, used) ensures token != Tokens.TokenAt(seed, n) {
      var m :| m in used && token == Tokens.TokenAt(seed, m);
      Tokens.TokensRepeatExactlyAfterAllAreUsed(seed, if m < n then m else n, if m < n then n else m);
    }
    forall k | 0 <= k < |t.client.slots| && t.client.slots[k].inUse
      ensures t.client.slots[k].token != Tokens.TokenAt(seed, n)
    {
      assert Held(t, k);
    }
  }

  /** Requests that leave and slots that are freed hold no new tokens. */
  lemma LessKeepsDrawn(t: Threads, u: Threads, seed: Token, used: set<nat>)
    requires |seed| == TOKEN_LEN && DrawnSoFar(t, seed, used)
    requires Thins(t.client.engine.reqs, u.client.engine.reqs) && |u.client.slots| == |t.client.slots|
    requires forall k: nat :: Held(u, k) ==> Held(t, k) && u.client.slots[k].token == t.client.slots[k].token
    ensures DrawnSoFar(u, seed, used)
  {
    var before, after := t.client.engine.reqs, u.client.engine.reqs;
    forall j | 0 <= j < |after| ensures WasDrawn(after[j].token, seed, used) {
      ThinnedIsAmong(before, after, j);
      var i :| 0 <= i < |before| && SameIdentity(before[i], after[j]);
      assert WasDrawn(before[i].token, seed, used);
    }
  }

  lemma EstablishKeepsDrawn(t: Threads, a: Action, seed: Token, used: set<nat>)
    requires |seed| == TOKEN_LEN && DrawnSoFar(t, seed, used) && a.Establish? && Legal(t, Do(a))
    ensures DrawnSoFar(Step(t, Do(a)), seed, used)
  {
    var before, after := t.client.engine.reqs, Step(t, Do(a)).client.engine.reqs;
    forall j | 0 <= j < |after| ensures WasDrawn(after[j].token, seed, used) {
      assert j < |before| ==> WasDrawn(before[j].token, seed, used);
      assert j == |before| ==> Held(t, a.slot);
    }
  }

  lemma OtherStepKeepsDrawn(t: Threads, m: Move, seed: Token, used: set<nat>)
    requires |seed| == TOKEN_LEN && DrawnSoFar(t, seed, used) && !TakesNewToken(m)
    ensures DrawnSoFar(Step(t, m), seed, used)
  {
    if Legal(t, m) {
      var e, u := t.client.engine, Step(t, m);
      if m.Do? && m.a.Establish? {
        EstablishKeepsDrawn(t, m.a, seed, used);
      } else {
        ThinsItself(e.reqs);
        if m.Do? {
          match m.a
          case Response(rx, uptime, rxSzx, cbRet) => ReceiveThins(e, rx, uptime, rxSzx, cbRet);
          case PollStep(now, ack) => PollThins(e.reqs, now, ack);
          case Release(k) => CancelThins(e, SlotMsg(k));
          case Drop => ThinsToNothing(e.reqs);
          case _ =>
        }
        LessKeepsDrawn(t, u, seed, used);
      }
    }
  }

  lemma NewTokenKeepsDrawn(t: Threads, m: Move, seed: Token, used: set<nat>, n: nat)
    requires |seed| == TOKEN_LEN && DrawnSoFar(t, seed, used)
    requires TakesNewToken(m) && m.a.token == Tokens.TokenAt(seed, n)
    ensures DrawnSoFar(Step(t, m), seed, used + {n})
  {
    var u := Step(t, m);
    var before, after := t.client.engine.reqs, u.client.engine.reqs;
    assert n in used + {n};
    assert WasDrawn(m.a.token, seed, used + {n});
    forall j | 0 <= j < |after| ensures WasDrawn(after[j].token, seed, used + {n}) {
      if j < |before| {
        assert after[j] == before[j];
        MoreCalls(before[j].token, seed, used, n);
      }
    }
    forall k: nat | Held(u, k) ensures WasDrawn(u.client.slots[k].token, seed, used + {n}) {
      if u.client.slots[k] == t.client.slots[k] {
        MoreCalls(t.client.slots[k].token, seed, used, n);
      }
    }
  }

  lemma TakenTokenIsFresh(t: Threads, m: Move, seed: Token, n: nat, used: set<nat>)
    requires |seed| == TOKEN_LEN && DrawnSoFar(t, seed, used)
    requires (forall i :: i in used ==> InStore(i)) && TakesToken(t.client, m, seed, n, used)
    ensures FreshlyNamed(t.client, m)
    ensures DrawnSoFar(Step(t, m), seed, UsedAfter(m, n, used))
  {
    if TakesNewToken(m) {
      if n !in used {
        UnusedTokenIsFresh(t, seed, used, n);
      }
      NewTokenKeepsDrawn(t, m, seed, used, n);
    } else {
      OtherStepKeepsDrawn(t, m, seed, used);
    }
  }

  lemma {:induction false} DrawnTokensNameFreshly(t: Threads, moves: seq<Move>, seed: Token,
                                                  draws: seq<nat>, used: set<nat>)
    requires |seed| == TOKEN_LEN && DrawnSoFar(t, seed, used)
    requires (forall i :: i in used ==> InStore(i)) && TakesTokens(t, moves, seed, draws, used)
    ensures AllFreshlyNamed(t, moves)
    decreases |moves|
  {
    if moves != [] {
      TakenTokenIsFresh(t, moves[0], seed, draws[0], used);
      DrawnTokensNameFreshly(Step(t, moves[0]), moves[1..], seed, draws[1..], UsedAfter(moves[0], draws[0], used));
    }
  }

  /** In particular, a run in which no two requests have tokens of the same call is such a run. */
  lemma {:induction false} DistinctDrawsSuffice(t: Threads, moves: seq<Move>, seed: Token, draws: seq<nat>,
                                                used: set<nat>)
    requires |seed| == TOKEN_LEN && |draws| == |moves|
    requires forall i :: 0 <= i < |moves| && TakesNewToken(moves[i]) ==>
                           InStore(draws[i]) && draws[i] !in used && moves[i].a.token == Tokens.TokenAt(seed, draws[i])
    requires forall i, j :: 0 <= i < j < |moves| && TakesNewToken(moves[i]) && TakesNewToken(moves[j]) ==>
                              draws[i] != draws[j]
    ensures TakesTokens(t, moves, seed, draws, used)
    decreases |moves|
  {
    if moves != [] {
      DistinctDrawsSuffice(Step(t, moves[0]), moves[1..], seed, draws[1..], UsedAfter(moves[0], draws[0], used));
    }
  }

  lemma AppliedKeepsOthers(before: seq<Req>, after: seq<Req>, i: nat, j: nat)
    requires i < |before| && j < |before| && i != j
    requires after == RemoveAt(before, i) || (|after| == |before| && after == before[i := after[i]])
    ensures before[j] in after
  {
    if after == RemoveAt(before, i) {
      RemovedAt(before, i, if j < i then j else j - 1);
    } else {
      assert after[j] == before[j];
    }
  }

  lemma OthersUntouched(s: Engine, rx: Rx, uptime: int, rxSzx: nat, cbRet: int, j: nat)
    requires DistinctIds(s.reqs) && DistinctTokens(s.reqs) && FullTokens(s.reqs)
    requires |rx.token| == TOKEN_LEN && j < |s.reqs| && s.reqs[j].token != rx.token
    ensures var t := Receive(s, rx, uptime, rxSzx, cbRet);
            && s.reqs[j] in t.reqs && s.log <= t.log
            && forall e :: e in t.log[|s.log|..] ==> !IsCall(e, s.reqs[j].id) && !IsFree(e, s.reqs[j].id)
  {
    if exists k :: 0 <= k < |s.reqs| && s.reqs[k].token == rx.token {
      var i :| 0 <= i < |s.reqs| && s.reqs[i].token == rx.token;
      ResponseTouchesOnlyItsRequest(s, rx, uptime, rxSzx, cbRet, i);
      assert s.reqs[j].id != s.reqs[i].id;
      AppliedKeepsOthers(s.reqs, Receive(s, rx, uptime, rxSzx, cbRet).reqs, i, j);
    } else {
      ResponseTouchesOnlyItsRequest(s, rx, uptime, rxSzx, cbRet, |s.reqs|);
    }
  }

  /** Over every run whose requests take their tokens from a store called fewer than 2^64 times, in
      whatever order they arrive and whichever tokens are lost on the way, and however cancelling and
      reconnecting interleave: no two live requests share a token, and so a response with a full-length
      token leaves every request but the one carrying it untouched. */
  lemma ResponsesReachTheirRequests(slots: nat, moves: seq<Move>, seed: Token, draws: seq<nat>,
                                    rx: Rx, uptime: int, rxSzx: nat, cbRet: int, j: nat)
    requires |seed| == TOKEN_LEN && TakesTokens(FreshThreads(slots), moves, seed, draws, {})
    requires |rx.token| == TOKEN_LEN
    ensures var s := RunMoves(FreshThreads(slots), moves).client.engine;
            var t := Receive(s, rx, uptime, rxSzx, cbRet);
            && DistinctTokens(s.reqs)
            && (j < |s.reqs| && s.reqs[j].token != rx.token ==>
                  && s.reqs[j] in t.reqs
                  && s.log <= t.log
                  && forall e :: e in t.log[|s.log|..] ==> !IsCall(e, s.reqs[j].id) && !IsFree(e, s.reqs[j].id))
  {
    var t := FreshThreads(slots);
    DrawnTokensNameFreshly(t, moves, seed, draws, {});
    RoutingUnderInterleaving(slots, moves);
    FreshEngineInv();
    ThreadsRunTheClient(t, moves);
    RunKeepsEngineInv(Fresh(slots), Steps(t, moves));
    var s := RunMoves(t, moves).client.engine;
    if j < |s.reqs| && s.reqs[j].token != rx.token {
      OthersUntouched(s, rx, uptime, rxSzx, cbRet, j);
    }
  }

  // ---------------------------------------------------------------- notifications

  /** A plain notification of a matching observation reaches its callback exactly when it is newer, in
      the sense of RFC 7641 section 3.4, than the one accepted last; then, and only then, it becomes
      the one accepted last. */
  lemma NotificationIsServedIffNewer(s: Engine, rx: Rx, uptime: int, rxSzx: nat, cbRet: int)
    requires FirstMatch(s.reqs, rx) < |s.reqs| && s.reqs[FirstMatch(s.reqs, rx)].isObserve
    requires rx.observe.Some? && rx.code / 32 == 2 && rx.block2.None?
    ensures var i := FirstMatch(s.reqs, rx);
            var t := Receive(s, rx, uptime, rxSzx, cbRet);
            && |t.reqs| == |s.reqs| && s.log <= t.log
            && (if ObserveOrder.ReplyIsNewer(s.reqs[i].reply, rx.observe.value, uptime)
                then |t.log| == |s.log| + 1 && IsCall(t.log[|s.log|], s.reqs[i].id)
                     && t.log[|s.log|].rsp.data == rx.payload
                     && t.reqs[i].reply == ObserveOrder.Reply(rx.observe.value, uptime)
                else t == s)
  {
    var i := FirstMatch(s.reqs, rx);
    HandleFacts(Noted(s.reqs[i], rx, uptime), rx, rxSzx, cbRet);
  }

  // ---------------------------------------------------------------- timing over whole runs

  /** The clock reading of a step, as a true time; `born` lists when each request was scheduled. */
  ghost predicate Timely(c: Client, a: Action, born: seq<nat>, ack: nat -> Retransmission.AckTimeout) {
    match a
    case Request(_, _, _, _, _, now) => now >= 0
    case AddObserve(_, _, _, _, now) => now >= 0
    case Establish(_, _, _, now) => now >= 0
    case PollStep(now, draw) =>
      // each request keeps the timeout drawn for it; polls come in time
      now >= 0 && (forall id: nat :: draw(id) == ack(id)) && InRange(c.engine.reqs, born, now)
    case _ => true
  }

  /** The scheduling times after a step. */
  ghost function BornAfter(c: Client, a: Action, born: seq<nat>): seq<nat>
    requires |Next(c, a).engine.scheduled| >= |c.engine.scheduled|
    requires NeedsToken(a) || a.Establish? ==> a.now >= 0
  {
    var more := |Next(c, a).engine.scheduled| - |c.engine.scheduled|;
    if NeedsToken(a) || a.Establish? then born + seq(more, _ => a.now) else born
  }

  ghost predicate TimedClient(c: Client, born: seq<nat>, ack: nat -> Retransmission.AckTimeout) {
    |born| == |c.engine.scheduled| && Timed(c.engine.reqs, born, ack)
  }

  lemma LongerHistory(reqs: seq<Req>, born: seq<nat>, more: seq<nat>, ack: nat -> Retransmission.AckTimeout)
    requires Timed(reqs, born, ack)
    ensures Timed(reqs, born + more, ack)
  {
    forall i | 0 <= i < |reqs| && !IsIdle(reqs[i]) ensures InSomePeriod(reqs[i], born + more, ack) {
      assert InSomePeriod(reqs[i], born, ack);
      var n :| 0 <= n <= 4 && reqs[i].pending == Retransmission.StateAt(born[reqs[i].id], ack(reqs[i].id), n);
      assert (born + more)[reqs[i].id] == born[reqs[i].id];
    }
  }

  /** Requests that only became idle or left, or kept their timing. */
  ghost predicate Untimed(a: Req, b: Req) {
    a.id == b.id && (IsIdle(b) || (!IsIdle(a) && b.pending == a.pending))
  }

  lemma RemoveKeepsTimed(reqs: seq<Req>, i: nat, born: seq<nat>, ack: nat -> Retransmission.AckTimeout)
    requires Timed(reqs, born, ack) && i < |reqs|
    ensures Timed(RemoveAt(reqs, i), born, ack)
  {
    var after := RemoveAt(reqs, i);
    assert forall j :: 0 <= j < |after| ==> after[j] == reqs[if j < i then j else j + 1];
  }

  lemma HandleTiming(req: Req, rx: Rx, rxSzx: nat, cbRet: int)
    ensures Handle(req, rx, rxSzx, cbRet).kept.Some? ==> Untimed(req, Handle(req, rx, rxSzx, cbRet).kept.value)
  {
  }

  lemma ReceiveKeepsTimed(e: Engine, rx: Rx, uptime: int, rxSzx: nat, cbRet: int, born: seq<nat>,
                          ack: nat -> Retransmission.AckTimeout)
    requires Timed(e.reqs, born, ack)
    ensures Timed(Receive(e, rx, uptime, rxSzx, cbRet).reqs, born, ack)
  {
    var i := FirstMatch(e.reqs, rx);
    var t := Receive(e, rx, uptime, rxSzx, cbRet);
    if t != e {
      var served := Noted(e.reqs[i], rx, uptime);
      var h := Handle(served, rx, rxSzx, cbRet);
      HandleTiming(served, rx, rxSzx, cbRet);
      if h.kept.Some? {
        var r := h.kept.value;
        assert t.reqs == e.reqs[i := r];
        assert Untimed(e.reqs[i], r);
        if !IsIdle(r) {
          assert InSomePeriod(e.reqs[i], born, ack);
        }
      } else {
        RemoveKeepsTimed(e.reqs, i, born, ack);
      }
    }
  }

  lemma SubmitKeepsTimed(s: Engine, token: Token, mid: nat, isObserve: bool, msg: MsgRef, block: BlockCtx,
                         postSzx: nat, now: nat, born: seq<nat>, ack: nat -> Retransmission.AckTimeout)
    requires |born| == |s.scheduled| && Timed(s.reqs, born, ack)
    ensures var t := Submit(s, token, mid, isObserve, msg, block, postSzx, now).1;
            var more := seq(|t.scheduled| - |s.scheduled|, _ => now);
            |born + more| == |t.scheduled| && Timed(t.reqs, born + more, ack)
  {
    var t := Submit(s, token, mid, isObserve, msg, block, postSzx, now).1;
    var more := seq(|t.scheduled| - |s.scheduled|, _ => now);
    LongerHistory(s.reqs, born, more, ack);
    if s.connected {
      var req := t.reqs[|s.reqs|];
      assert (born + more)[req.id] == now;
      assert req.pending == Retransmission.StateAt(now, ack(req.id), 0);
      assert InSomePeriod(req, born + more, ack);
    }
  }

  lemma {:induction false} SameDraws(reqs: seq<Req>, now: int, draw: nat -> Retransmission.AckTimeout,
                                     ack: nat -> Retransmission.AckTimeout)
    requires forall id: nat :: draw(id) == ack(id)
    ensures PollList(reqs, now, draw) == PollList(reqs, now, ack)
  {
    if reqs != [] {
      SameDraws(reqs[1..], now, draw, ack);
    }
  }

  /** Every step keeps every request in one of the transmission periods of its own schedule. */
  lemma StepKeepsTimed(c: Client, a: Action, born: seq<nat>, ack: nat -> Retransmission.AckTimeout)
    requires TimedClient(c, born, ack) && Timely(c, a, born, ack)
    ensures |Next(c, a).engine.scheduled| >= |c.engine.scheduled|
    ensures TimedClient(Next(c, a), BornAfter(c, a, born), ack)
  {
    match a
    case Request(token, mid, address, block, postSzx, now) =>
      SubmitKeepsTimed(c.engine, token, mid, false, HeapMsg(address), block, postSzx, now, born, ack);
    case AddObserve(token, prefix, mid, memory, now) =>
      SubmitKeepsTimed(c.engine, token, mid, true, SlotMsg(FirstFree(c.slots)), NO_BLOCK, 0, now, born, ack);
      assert born + seq(0, _ => now) == born;
    case Response(rx, uptime, rxSzx, cbRet) => ReceiveKeepsTimed(c.engine, rx, uptime, rxSzx, cbRet, born, ack);
    case PollStep(now, draw) =>
      SameDraws(c.engine.reqs, now, draw, ack);
      PollDropsExactlyOverdue(c.engine.reqs, born, ack, now, 0);
    case Establish(k, memory, mid, now) =>
      if k < |c.slots| && memory {
        SubmitKeepsTimed(c.engine, c.slots[k].token, mid, true, SlotMsg(k), NO_BLOCK, 0, now, born, ack);
      }
      assert born + seq(0, _ => now) == born;
    case Release(k) =>
      var i := FirstObserving(c.engine.reqs, SlotMsg(k));
      if i < |c.engine.reqs| {
        RemoveKeepsTimed(c.engine.reqs, i, born, ack);
      }
    case Clear(k) =>
    case Link =>
    case Drop =>
  }

  /** A run with timely steps, and the scheduling times at its end. */
  ghost predicate TimelyRun(c: Client, actions: seq<Action>, born: seq<nat>, ack: nat -> Retransmission.AckTimeout,
                            end: Client, bornEnd: seq<nat>)
    decreases |actions|
  {
    if actions == [] then end == c && bornEnd == born
    else
      && Timely(c, actions[0], born, ack)
      && |Next(c, actions[0]).engine.scheduled| >= |c.engine.scheduled|
      && TimelyRun(Next(c, actions[0]), actions[1..], BornAfter(c, actions[0], born), ack, end, bornEnd)
  }

  lemma {:induction false} RunKeepsTimed(c: Client, actions: seq<Action>, born: seq<nat>,
                                         ack: nat -> Retransmission.AckTimeout, end: Client, bornEnd: seq<nat>)
    requires TimedClient(c, born, ack) && TimelyRun(c, actions, born, ack, end, bornEnd)
    ensures TimedClient(end, bornEnd, ack)
    decreases |actions|
  {
    if actions != [] {
      StepKeepsTimed(c, actions[0], born, ack);
      RunKeepsTimed(Next(c, actions[0]), actions[1..], BornAfter(c, actions[0], born), ack, end, bornEnd);
    }
  }

  lemma {:induction false} TimelyRunIsRun(c: Client, actions: seq<Action>, born: seq<nat>,
                                          ack: nat -> Retransmission.AckTimeout, end: Client, bornEnd: seq<nat>)
    requires TimelyRun(c, actions, born, ack, end, bornEnd)
    ensures end == Run(c, actions)
    decreases |actions|
  {
    if actions != [] {
      TimelyRunIsRun(Next(c, actions[0]), actions[1..], BornAfter(c, actions[0], born), ack, end, bornEnd);
    }
  }

  /** In every run, whatever else happens in between: a poll drops a live request exactly when fifteen
      of its timeouts have passed since it was scheduled, unless it is an idle observation, which no
      poll drops; and afterwards every other deadline lies ahead. */
  lemma PollsInRuns(slots: nat, actions: seq<Action>, ack: nat -> Retransmission.AckTimeout, c: Client,
                    born: seq<nat>, now: nat, i: nat)
    requires TimelyRun(Fresh(slots), actions, [], ack, c, born)
    requires InRange(c.engine.reqs, born, now) && i < |c.engine.reqs|
    ensures var (after, _, timeout) := PollList(c.engine.reqs, now, ack);
            var req := c.engine.reqs[i];
            && req.id < |born|
            && (Live(after, req.id) <==> IsIdle(req) || now < born[req.id] + 15 * ack(req.id))
            && LeastTimeLeft(after, now, timeout)
  {
    RunKeepsTimed(Fresh(slots), actions, [], ack, c, born);
    TimelyRunIsRun(Fresh(slots), actions, [], ack, c, born);
    FreshEngineInv();
    RunKeepsEngineInv(Fresh(slots), actions);
    var req := c.engine.reqs[i];
    PollDropsExactlyOverdue(c.engine.reqs, born, ack, now, req.id);
    PollDeadlines(c.engine.reqs, now, ack);
    if Stays(c.engine.reqs, born, ack, now, req.id) {
      var j :| 0 <= j < |c.engine.reqs| && c.engine.reqs[j].id == req.id && !Expires(c.engine.reqs[j], born, ack, now);
      assert j == i;
    }
  }
}
