/** The two sides that work on observation slots without a common lock: the client's own thread, which
    receives, polls, dispatches requests, and on connecting walks the slots to set observations up again;
    and any application threads, which cancel observations. A slot is tested and used in separate steps,
    and its request is cancelled and the slot freed in separate steps. */
module ObservationThreads {
  import opened Basics
  import opened CoapRequests
  import opened CoapClient

  /** Where the client's own thread is in `reestablish_observations`. */
  datatype Io =
    | Ready            // not in it
    | Walking(i: nat)  // about to test slot i
    | Chosen(i: nat)   // slot i was in use, its observation is about to be scheduled

  datatype Threads = Threads(client: Client, io: Io)

  /** A step of the client, or the test of the next slot. */
  datatype Move = Do(a: Action) | Test

  /** The client's own thread does one thing at a time; cancelling can happen at any time. */
  predicate Legal(t: Threads, m: Move) {
    match m
    case Test => t.io.Walking?
    case Do(Link) => t.io.Ready? && !t.client.engine.connected
    case Do(Establish(k, _, _, _)) => t.io == Chosen(k)
    case Do(Release(_)) => true
    case Do(Clear(_)) => true
    case _ => t.io.Ready?
  }

  /** One step; a move that is not possible leaves everything as it is. */
  function Step(t: Threads, m: Move): Threads {
    if !Legal(t, m) then t
    else
      match m
      case Test =>
        var slots := t.client.slots;
        t.(io := if t.io.i >= |slots| then Ready
                 else if slots[t.io.i].inUse then Chosen(t.io.i) else Walking(t.io.i + 1))
      case Do(a) =>
        Threads(Next(t.client, a),
                if a.Link? then Walking(0) else if a.Establish? then Walking(a.slot + 1) else t.io)
  }

  function RunMoves(t: Threads, moves: seq<Move>): Threads
    decreases |moves|
  {
    if moves == [] then t else RunMoves(Step(t, moves[0]), moves[1..])
  }

  function FreshThreads(slots: nat): Threads {
    Threads(Fresh(slots), Ready)
  }

  /** The steps the client makes in a run. */
  function Steps(t: Threads, moves: seq<Move>): seq<Action>
    decreases |moves|
  {
    if moves == [] then []
    else
      (if moves[0].Do? && Legal(t, moves[0]) then [moves[0].a] else []) + Steps(Step(t, moves[0]), moves[1..])
  }

  /** So whatever holds of all runs of a client holds here. */
  lemma {:induction false} ThreadsRunTheClient(t: Threads, moves: seq<Move>)
    ensures RunMoves(t, moves).client == Run(t.client, Steps(t, moves))
    decreases |moves|
  {
    if moves != [] {
      var m, rest := moves[0], Steps(Step(t, moves[0]), moves[1..]);
      ThreadsRunTheClient(Step(t, m), moves[1..]);
      if m.Do? && Legal(t, m) {
        RunCons(t.client, m.a, rest);
      } else {
        assert [] + rest == rest;
      }
    }
  }

  // ---------------------------------------------------------------- tokens, under every interleaving

  /** No live request and no slot in use carries the token. */
  ghost predicate IsFresh(c: Client, token: Token) {
    && |token| == TOKEN_LEN
    && (forall j :: 0 <= j < |c.engine.reqs| ==> c.engine.reqs[j].token != token)
    && (forall k :: 0 <= k < |c.slots| && c.slots[k].inUse ==> c.slots[k].token != token)
  }

  /** New requests come with a fresh token. */
  ghost predicate FreshlyNamed(c: Client, m: Move) {
    m.Do? && (m.a.Request? || m.a.AddObserve?) ==> IsFresh(c, m.a.token)
  }

  ghost predicate AllFreshlyNamed(t: Threads, moves: seq<Move>)
    decreases |moves|
  {
    moves == [] || (FreshlyNamed(t.client, moves[0]) && AllFreshlyNamed(Step(t, moves[0]), moves[1..]))
  }

  /** The token of the slot may still be put on a request: the slot is in use, or was when it was tested. */
  predicate Held(t: Threads, k: nat) {
    k < |t.client.slots| && (t.client.slots[k].inUse || t.io == Chosen(k))
  }

  ghost predicate HeldTokens(t: Threads) {
    && (forall k: nat :: Held(t, k) ==> |t.client.slots[k].token| == TOKEN_LEN)
    && (forall j: nat, k: nat :: Held(t, j) && Held(t, k) && j != k ==> t.client.slots[j].token != t.client.slots[k].token)
  }

  /** A request that carries the token of a held slot is the observation of that slot. */
  ghost predicate OwnSlot(t: Threads, req: Req) {
    forall k: nat :: Held(t, k) && t.client.slots[k].token == req.token ==> Observes(req, SlotMsg(k))
  }

  /** During the walk, only observations of the slots passed are in the list. */
  ghost predicate Passed(t: Threads, req: Req) {
    !t.io.Ready? ==> req.isObserve && req.msg.SlotMsg? && req.msg.slot < t.io.i
  }

  ghost predicate TokensInv(t: Threads) {
    var reqs := t.client.engine.reqs;
    && DistinctTokens(reqs) && FullTokens(reqs) && HeldTokens(t)
    && (forall j :: 0 <= j < |reqs| ==> OwnSlot(t, reqs[j]) && Passed(t, reqs[j]))
    && (!t.client.engine.connected ==> reqs == [] && t.io.Ready?)
  }

  lemma {:induction false} ThinKeepsDistinctTokens(before: seq<Req>, after: seq<Req>)
    requires DistinctTokens(before) && Thins(before, after)
    ensures DistinctTokens(after)
    decreases |before|
  {
    if before != [] {
      var tail := before[1..];
      if Thins(tail, after) {
        ThinKeepsDistinctTokens(tail, after);
      } else {
        ThinKeepsDistinctTokens(tail, after[1..]);
        forall j | 0 < j < |after| ensures after[0].token != after[j].token {
          ThinnedIsAmong(tail, after[1..], j - 1);
          var i :| 0 <= i < |tail| && SameIdentity(tail[i], after[1..][j - 1]);
          assert tail[i] == before[i + 1];
        }
        assert forall j :: 0 < j < |after| ==> after[j] == after[1..][j - 1];
      }
    }
  }

  /** Requests that only leave or change otherwise, and slots that are only freed, cost nothing. */
  lemma LessKeepsTokens(t: Threads, u: Threads)
    requires TokensInv(t) && Thins(t.client.engine.reqs, u.client.engine.reqs)
    requires u.io == t.io && u.client.engine.connected == t.client.engine.connected
    requires |u.client.slots| == |t.client.slots|
    requires forall k: nat :: Held(u, k) ==> Held(t, k) && u.client.slots[k].token == t.client.slots[k].token
    ensures TokensInv(u)
  {
    var before, after := t.client.engine.reqs, u.client.engine.reqs;
    ThinKeepsDistinctTokens(before, after);
    forall j | 0 <= j < |after| ensures |after[j].token| == TOKEN_LEN && OwnSlot(u, after[j]) && Passed(u, after[j]) {
      ThinnedIsAmong(before, after, j);
      var i :| 0 <= i < |before| && SameIdentity(before[i], after[j]);
      assert OwnSlot(t, before[i]) && Passed(t, before[i]);
    }
  }

  lemma EstablishKeepsTokens(t: Threads, a: Action)
    requires TokensInv(t) && a.Establish? && Legal(t, Do(a))
    ensures TokensInv(Step(t, Do(a)))
  {
    var u := Step(t, Do(a));
    var before, after := t.client.engine.reqs, u.client.engine.reqs;
    forall j | 0 <= j < |after| ensures OwnSlot(u, after[j]) && Passed(u, after[j]) && |after[j].token| == TOKEN_LEN {
      if j < |before| {
        assert OwnSlot(t, before[j]) && Passed(t, before[j]);
      }
      if j == |before| {
        assert Held(t, a.slot);
      }
    }
    forall j | 0 <= j < |before| && |after| > |before| ensures before[j].token != after[|before|].token {
      assert Held(t, a.slot) && OwnSlot(t, before[j]) && Passed(t, before[j]);
    }
  }

  lemma NewRequestKeepsTokens(t: Threads, a: Action)
    requires TokensInv(t) && (a.Request? || a.AddObserve?) && Legal(t, Do(a)) && IsFresh(t.client, a.token)
    ensures TokensInv(Step(t, Do(a)))
  {
    var u := Step(t, Do(a));
    var before, after := t.client.engine.reqs, u.client.engine.reqs;
    forall k: nat | Held(u, k) ensures u.client.slots[k].token == a.token || (Held(t, k) && u.client.slots[k] == t.client.slots[k]) {
    }
    forall j | 0 <= j < |after| ensures OwnSlot(u, after[j]) {
      if j < |before| {
        assert OwnSlot(t, before[j]);
      }
    }
  }

  lemma TestKeepsTokens(t: Threads)
    requires TokensInv(t) && t.io.Walking?
    ensures TokensInv(Step(t, Test))
  {
    var u := Step(t, Test);
    forall j | 0 <= j < |u.client.engine.reqs| ensures OwnSlot(u, u.client.engine.reqs[j]) && Passed(u, u.client.engine.reqs[j]) {
      assert OwnSlot(t, t.client.engine.reqs[j]) && Passed(t, t.client.engine.reqs[j]);
    }
  }

  lemma StepKeepsTokens(t: Threads, m: Move)
    requires TokensInv(t) && FreshlyNamed(t.client, m)
    ensures TokensInv(Step(t, m))
  {
    if Legal(t, m) {
      var e := t.client.engine;
      match m
      case Test => TestKeepsTokens(t);
      case Do(a) =>
        match a
        case Request(_, _, _, _, _, _) => NewRequestKeepsTokens(t, a);
        case AddObserve(_, _, _, _, _) => NewRequestKeepsTokens(t, a);
        case Response(rx, uptime, rxSzx, cbRet) =>
          ReceiveThins(e, rx, uptime, rxSzx, cbRet);
          LessKeepsTokens(t, Step(t, m));
        case PollStep(now, ack) =>
          PollThins(e.reqs, now, ack);
          LessKeepsTokens(t, Step(t, m));
        case Release(k) =>
          CancelThins(e, SlotMsg(k));
          LessKeepsTokens(t, Step(t, m));
        case Clear(k) =>
          ThinsItself(e.reqs);
          LessKeepsTokens(t, Step(t, m));
        case Establish(_, _, _, _) => EstablishKeepsTokens(t, a);
        case Link =>
        case Drop =>
    }
  }

  lemma {:induction false} RunKeepsTokens(t: Threads, moves: seq<Move>)
    requires TokensInv(t) && AllFreshlyNamed(t, moves)
    ensures TokensInv(RunMoves(t, moves))
    decreases |moves|
  {
    if moves != [] {
      StepKeepsTokens(t, moves[0]);
      RunKeepsTokens(Step(t, moves[0]), moves[1..]);
    }
  }

  /** However cancelling and reconnecting interleave, no two live requests carry the same token, so a
      response with a full-length token can only concern the one request that carries it. */
  lemma RoutingUnderInterleaving(slots: nat, moves: seq<Move>)
    requires AllFreshlyNamed(FreshThreads(slots), moves)
    ensures var c := RunMoves(FreshThreads(slots), moves).client;
            DistinctTokens(c.engine.reqs) && FullTokens(c.engine.reqs)
  {
    RunKeepsTokens(FreshThreads(slots), moves);
  }

  // ---------------------------------------------------------------- slots, and when they go wrong

  ghost predicate Mapped(t: Threads) {
    SlotsOk(t.client.engine.reqs, t.client.slots)
  }

  /** What the two unlocked loops would have to make sure of: a slot is freed only while no live request
      refers to it, and an observation is set up again only while its slot is still in use. */
  ghost predicate Safe(t: Threads, m: Move) {
    match m
    case Do(Clear(k)) => !HasRequest(t.client.engine.reqs, k)
    case Do(Establish(k, memory, _, _)) =>
      k < |t.client.slots| && memory && t.client.engine.connected ==> t.client.slots[k].inUse
    case _ => true
  }

  lemma ClearKeepsMappingExactlyWhen(t: Threads, k: nat)
    requires Mapped(t)
    ensures Mapped(Step(t, Do(Clear(k)))) <==> Safe(t, Do(Clear(k)))
  {
    var u := Step(t, Do(Clear(k)));
    var reqs := t.client.engine.reqs;
    if HasRequest(reqs, k) {
      var j :| 0 <= j < |reqs| && reqs[j].isObserve && reqs[j].msg == SlotMsg(k);
      assert MapsToSlot(reqs[j], t.client.slots);
      assert !MapsToSlot(reqs[j], u.client.slots);
    } else {
      forall j | 0 <= j < |reqs| ensures MapsToSlot(reqs[j], u.client.slots) {
        assert MapsToSlot(reqs[j], t.client.slots);
      }
    }
  }

  lemma EstablishKeepsMappingExactlyWhen(t: Threads, a: Action)
    requires Mapped(t) && TokensInv(t) && a.Establish? && Legal(t, Do(a))
    ensures Mapped(Step(t, Do(a))) <==> Safe(t, Do(a))
  {
    var u := Step(t, Do(a));
    var before, after := t.client.engine.reqs, u.client.engine.reqs;
    forall j | 0 <= j < |before| ensures MapsToSlot(before[j], u.client.slots) && before[j].msg != SlotMsg(a.slot) {
      assert MapsToSlot(before[j], t.client.slots) && Passed(t, before[j]);
    }
    if |after| > |before| {
      assert MapsToSlot(after[|before|], u.client.slots) <==> u.client.slots[a.slot].inUse;
    }
  }

  /** Every other step keeps the mapping; these two exactly when they are safe. */
  lemma StepKeepsMappingExactlyWhenSafe(t: Threads, m: Move)
    requires Mapped(t) && TokensInv(t) && Legal(t, m)
    ensures Mapped(Step(t, m)) <==> Safe(t, m)
  {
    var c := t.client;
    match m
    case Test =>
    case Do(a) =>
      match a
      case Request(_, _, _, _, _, _) => RequestKeepsMapping(t, a);
      case AddObserve(token, prefix, mid, memory, now) => AddKeepsSlots(c, token, prefix, mid, memory, now);
      case Response(rx, uptime, rxSzx, cbRet) =>
        ReceiveThins(c.engine, rx, uptime, rxSzx, cbRet);
        ThinKeepsSlots(c.engine.reqs, Next(c, a).engine.reqs, c.slots);
      case PollStep(now, ack) =>
        PollThins(c.engine.reqs, now, ack);
        ThinKeepsSlots(c.engine.reqs, Next(c, a).engine.reqs, c.slots);
      case Release(k) =>
        CancelThins(c.engine, SlotMsg(k));
        ThinKeepsSlots(c.engine.reqs, Next(c, a).engine.reqs, c.slots);
      case Clear(k) => ClearKeepsMappingExactlyWhen(t, k);
      case Establish(_, _, _, _) => EstablishKeepsMappingExactlyWhen(t, a);
      case Link =>
      case Drop =>
  }

  lemma RequestKeepsMapping(t: Threads, a: Action)
    requires Mapped(t) && a.Request?
    ensures SlotsOk(Next(t.client, a).engine.reqs, t.client.slots)
  {
    var reqs := Next(t.client, a).engine.reqs;
    forall j | 0 <= j < |reqs| ensures MapsToSlot(reqs[j], t.client.slots) {
      assert j < |t.client.engine.reqs| ==> MapsToSlot(t.client.engine.reqs[j], t.client.slots);
    }
  }

  /** The mapping holds at every point of a run. */
  ghost predicate MappedThroughout(t: Threads, moves: seq<Move>)
    decreases |moves|
  {
    Mapped(t) && (moves == [] || MappedThroughout(Step(t, moves[0]), moves[1..]))
  }

  ghost predicate AllSafe(t: Threads, moves: seq<Move>)
    decreases |moves|
  {
    moves == [] || ((Legal(t, moves[0]) ==> Safe(t, moves[0])) && AllSafe(Step(t, moves[0]), moves[1..]))
  }

  lemma {:induction false} MappedExactlyWhenSafe(t: Threads, moves: seq<Move>)
    requires Mapped(t) && TokensInv(t) && AllFreshlyNamed(t, moves)
    ensures MappedThroughout(t, moves) <==> AllSafe(t, moves)
    decreases |moves|
  {
    if moves != [] {
      StepKeepsTokens(t, moves[0]);
      if Legal(t, moves[0]) {
        StepKeepsMappingExactlyWhenSafe(t, moves[0]);
      }
      if Mapped(Step(t, moves[0])) {
        MappedExactlyWhenSafe(Step(t, moves[0]), moves[1..]);
      }
    }
  }

  /** Over every run: at each point live observations map one-to-one into slots in use, if and only if no
      slot is freed while a live request refers to it and none is set up again after it was freed. */
  lemma ObservationsMapExactlyWhenSafe(slots: nat, moves: seq<Move>)
    requires AllFreshlyNamed(FreshThreads(slots), moves)
    ensures MappedThroughout(FreshThreads(slots), moves) <==> AllSafe(FreshThreads(slots), moves)
  {
    MappedExactlyWhenSafe(FreshThreads(slots), moves);
  }

  /** The moves of an uninterrupted walk from slot i on. */
  function WalkMoves(slots: seq<Slot>, i: nat, memory: nat -> bool, mid: nat -> nat, now: int): seq<Move>
    requires i <= |slots|
    decreases |slots| - i
  {
    if i == |slots| then [Test]
    else
      (if slots[i].inUse then [Test, Do(Establish(i, memory(i), mid(i), now))] else [Test])
      + WalkMoves(slots, i + 1, memory, mid, now)
  }

  /** If nothing comes between, the walk sets up the observations of all slots in use, and ends. */
  lemma {:induction false} UninterruptedWalk(t: Threads, i: nat, memory: nat -> bool, mid: nat -> nat, now: int)
    requires i <= |t.client.slots| && t.io == Walking(i)
    ensures var c := t.client;
            RunMoves(t, WalkMoves(c.slots, i, memory, mid, now))
            == Threads(c.(engine := ReestablishFrom(c.engine, c.slots, i, memory, mid, now)), Ready)
    decreases |t.client.slots| - i
  {
    var slots := t.client.slots;
    if i == |slots| {
      MovesCons(t, Test, []);
      assert [Test] + [] == [Test];
    } else {
      var rest, u := WalkMoves(slots, i + 1, memory, mid, now), Step(t, Test);
      if slots[i].inUse {
        var establish := Do(Establish(i, memory(i), mid(i), now));
        UninterruptedWalk(Step(u, establish), i + 1, memory, mid, now);
        MovesCons(u, establish, rest);
        MovesCons(t, Test, [establish] + rest);
        assert [Test, establish] + rest == [Test] + ([establish] + rest);
      } else {
        UninterruptedWalk(u, i + 1, memory, mid, now);
        MovesCons(t, Test, rest);
      }
    }
  }

  // ---------------------------------------------------------------- cancelling one slot

  /** Requests for slot k were all scheduled after `bound` others. */
  ghost predicate OnlyNew(reqs: seq<Req>, k: nat, bound: nat) {
    forall j :: 0 <= j < |reqs| && Observes(reqs[j], SlotMsg(k)) ==> reqs[j].id >= bound
  }

  lemma ThinKeepsOnlyNew(before: seq<Req>, after: seq<Req>, k: nat, bound: nat)
    requires OnlyNew(before, k, bound) && Thins(before, after)
    ensures OnlyNew(after, k, bound)
  {
    forall j | 0 <= j < |after| && Observes(after[j], SlotMsg(k)) ensures after[j].id >= bound {
      ThinnedIsAmong(before, after, j);
      var i :| 0 <= i < |before| && SameIdentity(before[i], after[j]);
    }
  }

  lemma StepKeepsOnlyNew(t: Threads, m: Move, k: nat, bound: nat)
    requires OnlyNew(t.client.engine.reqs, k, bound) && bound <= |t.client.engine.scheduled|
    ensures OnlyNew(Step(t, m).client.engine.reqs, k, bound)
    ensures bound <= |Step(t, m).client.engine.scheduled|
  {
    var e := t.client.engine;
    if m.Do? && Legal(t, m) {
      match m.a
      case Response(rx, uptime, rxSzx, cbRet) =>
        ReceiveThins(e, rx, uptime, rxSzx, cbRet);
        ThinKeepsOnlyNew(e.reqs, Step(t, m).client.engine.reqs, k, bound);
      case PollStep(now, ack) =>
        PollThins(e.reqs, now, ack);
        ThinKeepsOnlyNew(e.reqs, Step(t, m).client.engine.reqs, k, bound);
      case Release(i) =>
        CancelThins(e, SlotMsg(i));
        ThinKeepsOnlyNew(e.reqs, Step(t, m).client.engine.reqs, k, bound);
      case _ =>
    }
  }

  lemma {:induction false} RunKeepsOnlyNew(t: Threads, moves: seq<Move>, k: nat, bound: nat)
    requires OnlyNew(t.client.engine.reqs, k, bound) && bound <= |t.client.engine.scheduled|
    ensures OnlyNew(RunMoves(t, moves).client.engine.reqs, k, bound)
    decreases |moves|
  {
    if moves != [] {
      StepKeepsOnlyNew(t, moves[0], k, bound);
      RunKeepsOnlyNew(Step(t, moves[0]), moves[1..], k, bound);
    }
  }

  lemma ReleaseRemoves(reqs: seq<Req>, k: nat)
    requires forall i, j :: 0 <= i < j < |reqs| && reqs[i].isObserve && reqs[j].isObserve ==> reqs[i].msg != reqs[j].msg
    ensures var i := FirstObserving(reqs, SlotMsg(k));
            var after := if i < |reqs| then RemoveAt(reqs, i) else reqs;
            forall j :: 0 <= j < |after| ==> !Observes(after[j], SlotMsg(k))
  {
    var i := FirstObserving(reqs, SlotMsg(k));
    if i < |reqs| {
      forall j | 0 <= j < |reqs| - 1 ensures !Observes(RemoveAt(reqs, i)[j], SlotMsg(k)) {
        RemovedAt(reqs, i, j);
      }
    }
  }

  /** Cancelling the observation of slot k while other things happen between its two halves: the mapping
      survives the second half if and only if no request that was set up again for the slot in between is
      still live. */
  lemma CancelKeepsMappingExactlyWhen(t: Threads, k: nat, between: seq<Move>)
    requires Mapped(t)
    requires Mapped(RunMoves(Step(t, Do(Release(k))), between))
    ensures var u := RunMoves(Step(t, Do(Release(k))), between);
            var reqs := u.client.engine.reqs;
            Mapped(Step(u, Do(Clear(k)))) <==>
              !exists j :: 0 <= j < |reqs| && Observes(reqs[j], SlotMsg(k)) && reqs[j].id >= |t.client.engine.scheduled|
  {
    var released := Step(t, Do(Release(k)));
    var u := RunMoves(released, between);
    ReleaseRemoves(t.client.engine.reqs, k);
    RunKeepsOnlyNew(released, between, k, |t.client.engine.scheduled|);
    ClearKeepsMappingExactlyWhen(u, k);
    if HasRequest(u.client.engine.reqs, k) {
      var j :| 0 <= j < |u.client.engine.reqs| && u.client.engine.reqs[j].isObserve && u.client.engine.reqs[j].msg == SlotMsg(k);
      assert Observes(u.client.engine.reqs[j], SlotMsg(k));
    }
  }

  // ---------------------------------------------------------------- a run that goes wrong

  /** A client that was connected once and has one slot, in use, for which it is not connected now. */
  ghost predicate LostConnection(t: Threads) {
    && t.io.Ready? && !t.client.engine.connected && t.client.engine.reqs == []
    && |t.client.slots| == 1 && t.client.slots[0].inUse && |t.client.slots[0].token| == TOKEN_LEN
  }

  lemma LostConnectionIsReachable(token: Token, prefix: string, mid: nat, now: int)
    requires |token| == TOKEN_LEN
    ensures exists moves :: AllFreshlyNamed(FreshThreads(1), moves) && LostConnection(RunMoves(FreshThreads(1), moves))
                            && RunMoves(FreshThreads(1), moves).client.slots[0].token == token
  {
    var t0 := FreshThreads(1);
    var t1 := Step(t0, Do(Link));
    var t2 := Step(t1, Test);
    var t3 := Step(t2, Test);
    var add := Do(AddObserve(token, prefix, mid, true, now));
    var t4 := Step(t3, add);
    var t5 := Step(t4, Do(Drop));
    assert LostConnection(t5) && t5.client.slots[0].token == token;
    MovesCons(t4, Do(Drop), []);
    MovesCons(t3, add, [Do(Drop)]);
    MovesCons(t2, Test, [add] + [Do(Drop)]);
    MovesCons(t1, Test, [Test] + ([add] + [Do(Drop)]));
    MovesCons(t0, Do(Link), [Test] + ([Test] + ([add] + [Do(Drop)])));
    assert [Do(Drop)] + [] == [Do(Drop)];
  }

  lemma MovesCons(t: Threads, m: Move, rest: seq<Move>)
    ensures RunMoves(t, [m] + rest) == RunMoves(Step(t, m), rest)
    ensures AllFreshlyNamed(t, [m] + rest) <==> FreshlyNamed(t.client, m) && AllFreshlyNamed(Step(t, m), rest)
  {
    assert ([m] + rest)[1..] == rest;
  }

  /** Cancelling finds no request, as there is no connection; the client connects and sets the observation
      up again; then the slot is freed. Its request stays behind, and once the slot is taken by the next
      observation two requests refer to it: notifications for the old one go to the new one's callback. */
  lemma CancelAcrossReconnect(t: Threads, mid: nat, now: int, token: Token, prefix: string)
    requires LostConnection(t) && |token| == TOKEN_LEN && token != t.client.slots[0].token
    ensures var freed := RunMoves(t, [Do(Release(0)), Do(Link), Test, Do(Establish(0, true, mid, now)), Do(Clear(0))]);
            && |freed.client.slots| == 1 && !freed.client.slots[0].inUse && !Mapped(freed)
            && var next := RunMoves(freed, [Test, Do(AddObserve(token, prefix, mid, true, now))]);
               var reqs := next.client.engine.reqs;
               && |reqs| == 2 && |next.client.slots| == 1
               && Observes(reqs[0], SlotMsg(0)) && Observes(reqs[1], SlotMsg(0))
               && reqs[0].token == t.client.slots[0].token && reqs[1].token == next.client.slots[0].token == token
  {
    var t1 := Step(t, Do(Release(0)));
    var t2 := Step(t1, Do(Link));
    var t3 := Step(t2, Test);
    var establish := Do(Establish(0, true, mid, now));
    var t4 := Step(t3, establish);
    var t5 := Step(t4, Do(Clear(0)));
    MovesCons(t4, Do(Clear(0)), []);
    MovesCons(t3, establish, [Do(Clear(0))]);
    MovesCons(t2, Test, [establish, Do(Clear(0))]);
    MovesCons(t1, Do(Link), [Test, establish, Do(Clear(0))]);
    MovesCons(t, Do(Release(0)), [Do(Link), Test, establish, Do(Clear(0))]);
    FiveMoves(Do(Release(0)), Do(Link), Test, establish, Do(Clear(0)));
    assert !MapsToSlot(t5.client.engine.reqs[0], t5.client.slots);
    var t6 := Step(t5, Test);
    var add := Do(AddObserve(token, prefix, mid, true, now));
    var t7 := Step(t6, add);
    MovesCons(t6, add, []);
    MovesCons(t5, Test, [add]);
    assert [Test] + [add] == [Test, add] && [add] + [] == [add];
  }

  lemma FiveMoves(a: Move, b: Move, c: Move, d: Move, e: Move)
    ensures [e] + [] == [e] && [d] + [e] == [d, e] && [c] + [d, e] == [c, d, e]
    ensures [b] + [c, d, e] == [b, c, d, e] && [a] + [b, c, d, e] == [a, b, c, d, e]
  {
  }
}
