/** The Zephyr CoAP client around the request list (`src/coap_client_zephyr.c`): observation slots that
    outlive a connection, and whole runs of the client. */
module CoapClient {
  import opened Basics
  import opened CoapRequests
  import Retransmission

  /** `struct golioth_coap_observe_info`, with the fields of its request message that matter here. */
  datatype Slot = Slot(inUse: bool, token: Token, prefix: string)

  datatype Client = Client(engine: Engine, slots: seq<Slot>)

  const NO_BLOCK := BlockCtx(0, 0, 0)

  function FirstFree(slots: seq<Slot>): (i: nat)
    ensures i <= |slots| && (i < |slots| ==> !slots[i].inUse)
    ensures forall j :: 0 <= j < i ==> slots[j].inUse
  {
    if slots == [] || !slots[0].inUse then 0 else 1 + FirstFree(slots[1..])
  }

  /** `golioth_coap_observe` for the message in slot i: it can run out of memory before the request
      enters the list. The token is the slot's own, at first use and when re-established. */
  function Observe(e: Engine, token: Token, i: nat, mid: nat, memory: bool, now: int): (bool, Engine) {
    if !memory then (false, e)
    else Submit(e, token, mid, true, SlotMsg(i), NO_BLOCK, 0, now)
  }

  /** `add_observation`. */
  function AddObservation(c: Client, token: Token, prefix: string, mid: nat, memory: bool, now: int): Client {
    var i := FirstFree(c.slots);
    if i == |c.slots| then c
    else
      var (ok, engine) := Observe(c.engine, token, i, mid, memory, now);
      Client(engine, c.slots[i := Slot(ok, token, prefix)])
  }

  predicate InPrefix(slot: Slot, prefix: Option<string>) {
    slot.inUse && (prefix.Some? ==> slot.prefix == prefix.value)
  }

  /** What happens to a client, in the steps in which it happens: the list of requests is locked for one
      step at a time, and the loops over the slots are not locked at all. */
  datatype Action =
    | Request(token: Token, mid: nat, address: nat, block: BlockCtx, postSzx: nat, now: int)
    | AddObserve(token: Token, prefix: string, mid: nat, memory: bool, now: int)
    | Response(rx: Rx, uptime: int, rxSzx: nat, cbRet: int)
    | PollStep(now: int, ack: nat -> Retransmission.AckTimeout)
    | Drop
    | Link                                                          // `golioth_coap_reqs_on_connect`
    | Establish(slot: nat, memory: bool, mid: nat, now: int)        // one call in `reestablish_observations`
    | Release(slot: nat)                                            // the request of a slot is cancelled,
    | Clear(slot: nat)                                              // and, in a second step, the slot freed

  function Next(c: Client, a: Action): Client {
    match a
    case Request(token, mid, address, block, postSzx, now) =>
      c.(engine := Submit(c.engine, token, mid, false, HeapMsg(address), block, postSzx, now).1)
    case AddObserve(token, prefix, mid, memory, now) => AddObservation(c, token, prefix, mid, memory, now)
    case Response(rx, uptime, rxSzx, cbRet) => c.(engine := Receive(c.engine, rx, uptime, rxSzx, cbRet))
    case PollStep(now, ack) => c.(engine := PollAll(c.engine, now, ack).0)
    case Drop => c.(engine := Disconnect(c.engine))
    case Link => c.(engine := Connect(c.engine))
    case Establish(k, memory, mid, now) =>
      if k < |c.slots| then c.(engine := Observe(c.engine, c.slots[k].token, k, mid, memory, now).1) else c
    case Release(k) => c.(engine := CancelObservation(c.engine, SlotMsg(k)))
    case Clear(k) => if k < |c.slots| then c.(slots := c.slots[k := c.slots[k].(inUse := false)]) else c
  }

  /** The body of the loop below for a slot that matches. */
  function CancelSlot(c: Client, i: nat): Client
    requires i < |c.slots|
  {
    Next(Next(c, Release(i)), Clear(i))
  }

  /** The loop of `golioth_cancel_all_observations_by_prefix` from slot i on, if nothing comes between. */
  function CancelFrom(c: Client, prefix: Option<string>, i: nat): Client
    requires i <= |c.slots|
    decreases |c.slots| - i
  {
    if i == |c.slots| then c
    else if !InPrefix(c.slots[i], prefix) then CancelFrom(c, prefix, i + 1)
    else CancelFrom(CancelSlot(c, i), prefix, i + 1)
  }

  /** The loop of `reestablish_observations` from slot i on, if nothing comes between; `memory` and `mid`
      per slot. */
  function ReestablishFrom(e: Engine, slots: seq<Slot>, i: nat, memory: nat -> bool, mid: nat -> nat, now: int): Engine
    requires i <= |slots|
    decreases |slots| - i
  {
    if i == |slots| then e
    else if !slots[i].inUse then ReestablishFrom(e, slots, i + 1, memory, mid, now)
    else ReestablishFrom(Observe(e, slots[i].token, i, mid(i), memory(i), now).1, slots, i + 1, memory, mid, now)
  }

  /** Connecting and setting up all observations again. */
  function Reconnected(c: Client, memory: nat -> bool, mid: nat -> nat, now: int): Client {
    c.(engine := ReestablishFrom(Connect(c.engine), c.slots, 0, memory, mid, now))
  }

  /** `golioth_init`: every slot is free. */
  function Fresh(slots: nat): Client {
    Client(INITIAL, seq(slots, _ => Slot(false, [], "")))
  }

  // ---------------------------------------------------------------- exactly one callback

  lemma FreshEngineInv()
    ensures Inv(INITIAL) && KnownIds(INITIAL)
  {
  }

  lemma StepKeepsEngineInv(c: Client, a: Action)
    requires Inv(c.engine) && KnownIds(c.engine)
    ensures Inv(Next(c, a).engine) && KnownIds(Next(c, a).engine)
  {
    match a
    case Request(token, mid, address, block, postSzx, now) =>
      SubmitKeepsInv(c.engine, token, mid, false, HeapMsg(address), block, postSzx, now);
    case AddObserve(token, prefix, mid, memory, now) =>
      SubmitKeepsInv(c.engine, token, mid, true, SlotMsg(FirstFree(c.slots)), NO_BLOCK, 0, now);
    case Response(rx, uptime, rxSzx, cbRet) => ReceiveKeepsInv(c.engine, rx, uptime, rxSzx, cbRet);
    case PollStep(now, ack) => PollKeepsInv(c.engine, now, ack);
    case Drop => DisconnectKeepsInv(c.engine);
    case Link => ConnectKeepsInv(c.engine);
    case Establish(k, memory, mid, now) =>
      if k < |c.slots| {
        SubmitKeepsInv(c.engine, c.slots[k].token, mid, true, SlotMsg(k), NO_BLOCK, 0, now);
      }
    case Release(k) => CancelKeepsInv(c.engine, SlotMsg(k));
    case Clear(k) =>
  }

  function Run(c: Client, actions: seq<Action>): Client
    decreases |actions|
  {
    if actions == [] then c else Run(Next(c, actions[0]), actions[1..])
  }

  lemma {:induction false} RunKeepsEngineInv(c: Client, actions: seq<Action>)
    requires Inv(c.engine) && KnownIds(c.engine)
    ensures Inv(Run(c, actions).engine) && KnownIds(Run(c, actions).engine)
    decreases |actions|
  {
    if actions != [] {
      StepKeepsEngineInv(c, actions[0]);
      RunKeepsEngineInv(Next(c, actions[0]), actions[1..]);
    }
  }

  /** Over any run of requests, observations, responses, polls, cancellations, disconnects and
      reconnects, in whatever order the threads' steps come: a request that is no observation has had no callback while it is in the list, and
      exactly one once it has left it; every request is freed exactly when it leaves; and the list is
      empty whenever the client is disconnected. */
  lemma ExactlyOneCallback(slots: nat, actions: seq<Action>, id: nat)
    ensures var e := Run(Fresh(slots), actions).engine;
            && (!e.connected ==> e.reqs == [])
            && (id < |e.scheduled| ==> Frees(e.log, id) == if Live(e.reqs, id) then 0 else 1)
            && (id < |e.scheduled| && !e.scheduled[id] ==> Calls(e.log, id) == if Live(e.reqs, id) then 0 else 1)
            // the callback comes directly before the request is freed
            && Orderly(e.log, e.scheduled)
  {
    FreshEngineInv();
    RunKeepsEngineInv(Fresh(slots), actions);
    var e := Run(Fresh(slots), actions).engine;
    if id < |e.scheduled| {
      assert Accounted(e, id);
    }
  }

  // ---------------------------------------------------------------- observation bookkeeping

  /** Live observation requests map one-to-one into in-use slots; other requests have messages of their
      own. */
  ghost predicate SlotsOk(reqs: seq<Req>, slots: seq<Slot>) {
    && (forall i :: 0 <= i < |reqs| ==> MapsToSlot(reqs[i], slots))
    && (forall i, j :: 0 <= i < j < |reqs| && reqs[i].isObserve && reqs[j].isObserve ==> reqs[i].msg != reqs[j].msg)
  }

  ghost predicate MapsToSlot(req: Req, slots: seq<Slot>) {
    if req.isObserve then
      && req.msg.SlotMsg? && req.msg.slot < |slots| && slots[req.msg.slot].inUse
      && req.token == slots[req.msg.slot].token
    else req.msg.HeapMsg?
  }

  /** `after` is what is left of `before`: some requests are gone, none has changed its identity. */
  ghost predicate Thins(before: seq<Req>, after: seq<Req>) {
    if before == [] then after == []
    else
      || Thins(before[1..], after)
      || (after != [] && SameIdentity(before[0], after[0]) && Thins(before[1..], after[1..]))
  }

  ghost predicate SameIdentity(a: Req, b: Req) {
    b.id == a.id && b.token == a.token && b.isObserve == a.isObserve && b.msg == a.msg
  }

  lemma {:induction false} ThinsItself(reqs: seq<Req>)
    ensures Thins(reqs, reqs)
  {
    if reqs != [] {
      ThinsItself(reqs[1..]);
    }
  }

  lemma {:induction false} RemoveThins(reqs: seq<Req>, i: nat)
    requires i < |reqs|
    ensures Thins(reqs, RemoveAt(reqs, i))
  {
    ThinsItself(reqs[1..]);
    if i == 0 {
      assert RemoveAt(reqs, 0) == reqs[1..];
    } else {
      RemoveThins(reqs[1..], i - 1);
      assert RemoveAt(reqs, i)[1..] == RemoveAt(reqs[1..], i - 1);
    }
  }

  lemma {:induction false} UpdateThins(reqs: seq<Req>, i: nat, r: Req)
    requires i < |reqs| && SameIdentity(reqs[i], r)
    ensures Thins(reqs, reqs[i := r])
  {
    if i == 0 {
      ThinsItself(reqs[1..]);
      assert reqs[0 := r][1..] == reqs[1..];
    } else {
      UpdateThins(reqs[1..], i - 1, r);
      assert reqs[i := r][1..] == reqs[1..][i - 1 := r];
    }
  }

  lemma ReceiveThins(e: Engine, rx: Rx, uptime: int, rxSzx: nat, cbRet: int)
    ensures Thins(e.reqs, Receive(e, rx, uptime, rxSzx, cbRet).reqs)
  {
    ThinsItself(e.reqs);
    var i := FirstMatch(e.reqs, rx);
    if Receive(e, rx, uptime, rxSzx, cbRet) != e {
      var req := e.reqs[i];
      var served := Noted(req, rx, uptime);
      HandleFacts(served, rx, rxSzx, cbRet);
      var h := Handle(served, rx, rxSzx, cbRet);
      if h.kept.Some? {
        UpdateThins(e.reqs, i, h.kept.value);
      } else {
        RemoveThins(e.reqs, i);
      }
    }
  }

  lemma CancelThins(e: Engine, msg: MsgRef)
    ensures Thins(e.reqs, CancelObservation(e, msg).reqs)
  {
    ThinsItself(e.reqs);
    if FirstObserving(e.reqs, msg) < |e.reqs| {
      RemoveThins(e.reqs, FirstObserving(e.reqs, msg));
    }
  }

  lemma {:induction false} PollThins(reqs: seq<Req>, now: int, ack: nat -> Retransmission.AckTimeout)
    ensures Thins(reqs, PollList(reqs, now, ack).0)
  {
    if reqs != [] {
      PollThins(reqs[1..], now, ack);
      var rest := PollList(reqs[1..], now, ack).0;
      var after := PollList(reqs, now, ack).0;
      var kept := if IsIdle(reqs[0]) then Some(reqs[0]) else PollOne(reqs[0], now, ack(reqs[0].id)).0;
      if kept.Some? {
        assert after == [kept.value] + rest && after[1..] == rest;
      } else {
        assert after == rest;
      }
    }
  }

  lemma {:induction false} ThinsToNothing(reqs: seq<Req>)
    ensures Thins(reqs, [])
  {
    if reqs != [] {
      ThinsToNothing(reqs[1..]);
    }
  }

  lemma {:induction false} ThinnedIsAmong(before: seq<Req>, after: seq<Req>, j: nat)
    requires Thins(before, after) && j < |after|
    ensures exists i :: 0 <= i < |before| && SameIdentity(before[i], after[j])
    decreases |before|
  {
    if before != [] {
      var tail := before[1..];
      if Thins(tail, after) {
        ThinnedIsAmong(tail, after, j);
        var i :| 0 <= i < |tail| && SameIdentity(tail[i], after[j]);
        assert SameIdentity(before[i + 1], after[j]);
      } else if j > 0 {
        ThinnedIsAmong(tail, after[1..], j - 1);
        var i :| 0 <= i < |tail| && SameIdentity(tail[i], after[1..][j - 1]);
        assert SameIdentity(before[i + 1], after[j]);
      }
    }
  }

  lemma {:induction false} ThinKeepsSlots(before: seq<Req>, after: seq<Req>, slots: seq<Slot>)
    requires SlotsOk(before, slots) && Thins(before, after)
    ensures SlotsOk(after, slots)
    decreases |before|
  {
    if before != [] {
      var tail := before[1..];
      if Thins(tail, after) {
        ThinKeepsSlots(tail, after, slots);
      } else {
        ThinKeepsSlots(tail, after[1..], slots);
        assert MapsToSlot(before[0], slots);
        forall j | 0 < j < |after| && after[0].isObserve && after[j].isObserve
          ensures after[0].msg != after[j].msg
        {
          ThinnedIsAmong(tail, after[1..], j - 1);
          var i :| 0 <= i < |tail| && SameIdentity(tail[i], after[1..][j - 1]);
          assert tail[i] == before[i + 1];
        }
      }
    }
  }

  lemma AddKeepsSlots(c: Client, token: Token, prefix: string, mid: nat, memory: bool, now: int)
    requires SlotsOk(c.engine.reqs, c.slots)
    ensures var t := AddObservation(c, token, prefix, mid, memory, now); SlotsOk(t.engine.reqs, t.slots)
  {
    var i := FirstFree(c.slots);
    if i < |c.slots| {
      var t := AddObservation(c, token, prefix, mid, memory, now);
      forall j | 0 <= j < |c.engine.reqs| ensures MapsToSlot(c.engine.reqs[j], t.slots) {
        assert MapsToSlot(c.engine.reqs[j], c.slots);
      }
      forall j | 0 <= j < |c.engine.reqs| && c.engine.reqs[j].isObserve ensures c.engine.reqs[j].msg != SlotMsg(i) {
        assert MapsToSlot(c.engine.reqs[j], c.slots);
      }
    }
  }

  /** A request is submitted as it was taken from the queue, with a message of its own. */
  lemma RequestOutcome(c: Client, a: Action)
    requires a.Request?
    ensures var t, n := Next(c, a), |c.engine.reqs|;
            && t.slots == c.slots && (!c.engine.connected ==> t == c)
            && (c.engine.connected ==>
                  && |t.engine.reqs| == n + 1 && t.engine.reqs[..n] == c.engine.reqs
                  && var r := t.engine.reqs[n];
                     && !r.isObserve && r.msg == HeapMsg(a.address) && r.token == a.token && r.mid == a.mid
                     && r.block == a.block && r.postSzx == a.postSzx)
  {
    SubmitOutcome(c.engine, a.token, a.mid, false, HeapMsg(a.address), a.block, a.postSzx, a.now);
  }

  /** A new observation takes the first free slot, and the slot is in use exactly if its request was
      scheduled, which needs memory and a connection. Nothing else changes. */
  lemma AddOutcome(c: Client, token: Token, prefix: string, mid: nat, memory: bool, now: int)
    ensures var t, i := AddObservation(c, token, prefix, mid, memory, now), FirstFree(c.slots);
            && (i == |c.slots| ==> t == c)
            && (i < |c.slots| ==>
                  && t.slots == c.slots[i := Slot(memory && c.engine.connected, token, prefix)]
                  && if memory && c.engine.connected then
                       && |t.engine.reqs| == |c.engine.reqs| + 1 && t.engine.reqs[..|c.engine.reqs|] == c.engine.reqs
                       && var req := t.engine.reqs[|c.engine.reqs|];
                          Observes(req, SlotMsg(i)) && req.token == token && req.mid == mid && req.isPending
                     else t.engine == c.engine)
  {
  }

  /** The requests left when the observations of some slots are cancelled. */
  function Without(reqs: seq<Req>, doomed: set<nat>): seq<Req> {
    if reqs == [] then []
    else
      var rest := Without(reqs[1..], doomed);
      if reqs[0].isObserve && reqs[0].msg.SlotMsg? && reqs[0].msg.slot in doomed then rest else [reqs[0]] + rest
  }

  lemma {:induction false} WithoutTwice(reqs: seq<Req>, a: set<nat>, b: set<nat>)
    ensures Without(Without(reqs, a), b) == Without(reqs, a + b)
  {
    if reqs != [] {
      WithoutTwice(reqs[1..], a, b);
      var rest := Without(reqs[1..], a);
      assert ([reqs[0]] + rest)[1..] == rest;
    }
  }

  lemma {:induction false} WithoutNone(reqs: seq<Req>, doomed: set<nat>)
    requires forall i :: 0 <= i < |reqs| && reqs[i].isObserve && reqs[i].msg.SlotMsg? ==> reqs[i].msg.slot !in doomed
    ensures Without(reqs, doomed) == reqs
  {
    if reqs != [] {
      WithoutNone(reqs[1..], doomed);
    }
  }

  /** Cancelling the observation of one slot removes exactly the request that maps to it. */
  lemma {:induction false} CancelOneSlot(reqs: seq<Req>, k: nat)
    requires forall i, j :: 0 <= i < j < |reqs| && reqs[i].isObserve && reqs[j].isObserve ==> reqs[i].msg != reqs[j].msg
    ensures var i := FirstObserving(reqs, SlotMsg(k));
            Without(reqs, {k}) == if i < |reqs| then RemoveAt(reqs, i) else reqs
  {
    if reqs != [] {
      var tail := reqs[1..];
      if Observes(reqs[0], SlotMsg(k)) {
        WithoutNone(tail, {k});
        assert RemoveAt(reqs, 0) == tail;
      } else {
        CancelOneSlot(tail, k);
        var i := FirstObserving(tail, SlotMsg(k));
        assert FirstObserving(reqs, SlotMsg(k)) == i + 1 && reqs == [reqs[0]] + tail;
        if i < |tail| {
          RemoveAtCons(reqs[0], tail, i);
        }
      }
    }
  }

  /** The slots a prefix selects, from slot i on. */
  ghost function Selected(slots: seq<Slot>, prefix: Option<string>, i: nat): set<nat> {
    set k: nat | i <= k < |slots| && InPrefix(slots[k], prefix)
  }

  ghost predicate SlotsCancelled(before: seq<Slot>, after: seq<Slot>, prefix: Option<string>, i: nat) {
    && |after| == |before|
    && forall k :: 0 <= k < |before| ==>
         after[k] == if k >= i && InPrefix(before[k], prefix) then before[k].(inUse := false) else before[k]
  }

  lemma CancelFirstSlot(c: Client, prefix: Option<string>, i: nat)
    requires SlotsOk(c.engine.reqs, c.slots) && i < |c.slots| && InPrefix(c.slots[i], prefix)
    ensures var d := CancelSlot(c, i);
            && SlotsOk(d.engine.reqs, d.slots) && |d.slots| == |c.slots|
            && d.engine.reqs == Without(c.engine.reqs, {i})
            && {i} + Selected(d.slots, prefix, i + 1) == Selected(c.slots, prefix, i)
  {
    CancelOneSlot(c.engine.reqs, i);
    CancelKeepsSlots(c, i);
  }

  lemma {:induction false} CancelFromRequests(c: Client, prefix: Option<string>, i: nat)
    requires SlotsOk(c.engine.reqs, c.slots) && i <= |c.slots|
    ensures CancelFrom(c, prefix, i).engine.reqs == Without(c.engine.reqs, Selected(c.slots, prefix, i))
    decreases |c.slots| - i
  {
    if i == |c.slots| {
      WithoutNone(c.engine.reqs, Selected(c.slots, prefix, i));
    } else if !InPrefix(c.slots[i], prefix) {
      CancelFromRequests(c, prefix, i + 1);
      assert Selected(c.slots, prefix, i) == Selected(c.slots, prefix, i + 1);
    } else {
      var d := CancelSlot(c, i);
      CancelFirstSlot(c, prefix, i);
      CancelFromRequests(d, prefix, i + 1);
      WithoutTwice(c.engine.reqs, {i}, Selected(d.slots, prefix, i + 1));
    }
  }

  lemma {:induction false} CancelFromSlots(c: Client, prefix: Option<string>, i: nat)
    requires i <= |c.slots|
    ensures SlotsCancelled(c.slots, CancelFrom(c, prefix, i).slots, prefix, i)
    decreases |c.slots| - i
  {
    if i < |c.slots| {
      CancelFromSlots(if InPrefix(c.slots[i], prefix) then CancelSlot(c, i) else c, prefix, i + 1);
    }
  }

  lemma CancelKeepsSlots(c: Client, i: nat)
    requires SlotsOk(c.engine.reqs, c.slots) && i < |c.slots|
    ensures SlotsOk(CancelSlot(c, i).engine.reqs, CancelSlot(c, i).slots)
  {
    var reqs := c.engine.reqs;
    var k := FirstObserving(reqs, SlotMsg(i));
    var d := CancelSlot(c, i);
    CancelThins(c.engine, SlotMsg(i));
    ThinKeepsSlots(reqs, d.engine.reqs, c.slots);
    forall j | 0 <= j < |d.engine.reqs| ensures MapsToSlot(d.engine.reqs[j], d.slots) {
      assert MapsToSlot(d.engine.reqs[j], c.slots);
      if k < |reqs| {
        var o := if j < k then j else j + 1;
        assert d.engine.reqs[j] == reqs[o];
        assert reqs[o].isObserve ==> reqs[o].msg != reqs[k].msg;
      } else {
        assert !Observes(reqs[j], SlotMsg(i));
      }
    }
  }

  /** Cancelling by prefix, if nothing comes between, frees exactly the matching slots and removes exactly their requests; all
      other slots and requests stay, in their order. */
  lemma CancelByPrefixIsExact(c: Client, prefix: Option<string>)
    requires SlotsOk(c.engine.reqs, c.slots)
    ensures var t := CancelFrom(c, prefix, 0);
            && |t.slots| == |c.slots|
            && (forall k :: 0 <= k < |c.slots| ==>
                  // freed: the slots in use whose prefix equals the one given, or all in use if none is given
                  && (t.slots[k].inUse <==>
                        c.slots[k].inUse && prefix.Some? && c.slots[k].prefix != prefix.value)
                  && t.slots[k].token == c.slots[k].token && t.slots[k].prefix == c.slots[k].prefix)
            && t.engine.reqs == Without(c.engine.reqs, set k: nat | k < |c.slots| && c.slots[k].inUse && !t.slots[k].inUse)
  {
    CancelFromRequests(c, prefix, 0);
    CancelFromSlots(c, prefix, 0);
    var t := CancelFrom(c, prefix, 0);
    assert Selected(c.slots, prefix, 0) == set k: nat | k < |c.slots| && c.slots[k].inUse && !t.slots[k].inUse;
  }

  /** `Without` keeps, in their order, exactly the requests that are not observations of those slots. */
  lemma {:induction false} WithoutKeeps(reqs: seq<Req>, doomed: set<nat>, r: Req)
    ensures r in Without(reqs, doomed) <==> r in reqs && !(r.isObserve && r.msg.SlotMsg? && r.msg.slot in doomed)
  {
    if reqs != [] {
      WithoutKeeps(reqs[1..], doomed, r);
      assert r in reqs <==> r == reqs[0] || r in reqs[1..];
    }
  }

  // ---------------------------------------------------------------- reconnecting

  /** Requests are in the list for exactly the in-use slots below i that had memory, in slot order. */
  ghost predicate Reestablished(e: Engine, slots: seq<Slot>, i: nat, memory: nat -> bool) {
    && e.connected
    && (forall j :: 0 <= j < |e.reqs| ==>
          && e.reqs[j].isObserve && e.reqs[j].isPending && MapsToSlot(e.reqs[j], slots)
          && e.reqs[j].msg.slot < i)
    && (forall j, k :: 0 <= j < k < |e.reqs| ==> e.reqs[j].msg.slot < e.reqs[k].msg.slot)
    && (forall k :: 0 <= k < i && k < |slots| && slots[k].inUse && memory(k) ==> HasRequest(e.reqs, k))
  }

  ghost predicate HasRequest(reqs: seq<Req>, k: nat) {
    exists j :: 0 <= j < |reqs| && reqs[j].isObserve && reqs[j].msg == SlotMsg(k)
  }

  lemma {:induction false} ReestablishFromForm(e: Engine, slots: seq<Slot>, i: nat, memory: nat -> bool,
                                               mid: nat -> nat, now: int)
    requires i <= |slots| && Reestablished(e, slots, i, memory)
    ensures Reestablished(ReestablishFrom(e, slots, i, memory, mid, now), slots, |slots|, memory)
    decreases |slots| - i
  {
    if i < |slots| {
      var t := if slots[i].inUse then Observe(e, slots[i].token, i, mid(i), memory(i), now).1 else e;
      forall k | 0 <= k < i + 1 && slots[k].inUse && memory(k) ensures HasRequest(t.reqs, k) {
        if k < i {
          var j :| 0 <= j < |e.reqs| && e.reqs[j].isObserve && e.reqs[j].msg == SlotMsg(k);
          assert t.reqs[j] == e.reqs[j];
        } else {
          assert t.reqs[|e.reqs|].msg == SlotMsg(k);
        }
      }
      ReestablishFromForm(t, slots, i + 1, memory, mid, now);
    }
  }

  /** After a disconnect and a reconnect for which memory suffices, every slot in use has exactly one
      live request, carrying the slot's token, and nothing else is in the list. */
  lemma ReconnectRestoresObservations(c: Client, mid: nat -> nat, now: int)
    ensures var t := Reconnected(Next(c, Drop), _ => true, mid, now);
            && t.slots == c.slots && t.engine.connected
            && (forall j :: 0 <= j < |t.engine.reqs| ==>
                  t.engine.reqs[j].isObserve && MapsToSlot(t.engine.reqs[j], c.slots))
            && (forall k :: 0 <= k < |c.slots| && c.slots[k].inUse ==> HasRequest(t.engine.reqs, k))
            && (forall i, j :: 0 <= i < j < |t.engine.reqs| ==> t.engine.reqs[i].msg != t.engine.reqs[j].msg)
  {
    var d := Next(c, Drop);
    var memory: nat -> bool := _ => true;
    assert Reestablished(Connect(d.engine), c.slots, 0, memory);
    ReestablishFromForm(Connect(d.engine), c.slots, 0, memory, mid, now);
  }

  // ---------------------------------------------------------------- the loops as runs

  /** The steps of cancelling by prefix. */
  function CancelSteps(slots: seq<Slot>, prefix: Option<string>, i: nat): seq<Action>
    requires i <= |slots|
    decreases |slots| - i
  {
    if i == |slots| then []
    else (if InPrefix(slots[i], prefix) then [Release(i), Clear(i)] else []) + CancelSteps(slots, prefix, i + 1)
  }

  lemma RunCons(c: Client, a: Action, rest: seq<Action>)
    ensures Run(c, [a] + rest) == Run(Next(c, a), rest)
  {
    assert ([a] + rest)[1..] == rest;
  }

  lemma {:induction false} SameSteps(a: seq<Slot>, b: seq<Slot>, prefix: Option<string>, i: nat)
    requires |a| == |b| && i <= |a| && forall k :: i <= k < |a| ==> a[k] == b[k]
    ensures CancelSteps(a, prefix, i) == CancelSteps(b, prefix, i)
    decreases |a| - i
  {
    if i < |a| {
      SameSteps(a, b, prefix, i + 1);
    }
  }

  lemma RunCancelSlot(c: Client, i: nat, rest: seq<Action>)
    requires i < |c.slots|
    ensures Run(c, [Release(i), Clear(i)] + rest) == Run(CancelSlot(c, i), rest)
    ensures forall k :: i < k < |c.slots| ==> CancelSlot(c, i).slots[k] == c.slots[k]
  {
    RunCons(c, Release(i), [Clear(i)] + rest);
    RunCons(Next(c, Release(i)), Clear(i), rest);
    assert [Release(i)] + ([Clear(i)] + rest) == [Release(i), Clear(i)] + rest;
  }

  /** Uninterrupted, cancelling by prefix is the run of its steps. */
  lemma {:induction false} CancelFromIsRun(c: Client, prefix: Option<string>, i: nat)
    requires i <= |c.slots|
    ensures CancelFrom(c, prefix, i) == Run(c, CancelSteps(c.slots, prefix, i))
    decreases |c.slots| - i
  {
    if i < |c.slots| {
      var rest := CancelSteps(c.slots, prefix, i + 1);
      if InPrefix(c.slots[i], prefix) {
        var d := CancelSlot(c, i);
        CancelFromIsRun(d, prefix, i + 1);
        SameSteps(c.slots, d.slots, prefix, i + 1);
        RunCancelSlot(c, i, rest);
      } else {
        CancelFromIsRun(c, prefix, i + 1);
        assert [] + rest == rest;
      }
    }
  }

  /** The steps of setting up the observations again. */
  function EstablishSteps(slots: seq<Slot>, i: nat, memory: nat -> bool, mid: nat -> nat, now: int): seq<Action>
    requires i <= |slots|
    decreases |slots| - i
  {
    if i == |slots| then []
    else
      (if slots[i].inUse then [Establish(i, memory(i), mid(i), now)] else [])
      + EstablishSteps(slots, i + 1, memory, mid, now)
  }

  /** Uninterrupted, so is setting up the observations again. */
  lemma {:induction false} ReestablishFromIsRun(c: Client, i: nat, memory: nat -> bool, mid: nat -> nat, now: int)
    requires i <= |c.slots|
    ensures c.(engine := ReestablishFrom(c.engine, c.slots, i, memory, mid, now))
            == Run(c, EstablishSteps(c.slots, i, memory, mid, now))
    decreases |c.slots| - i
  {
    if i < |c.slots| {
      var rest := EstablishSteps(c.slots, i + 1, memory, mid, now);
      if c.slots[i].inUse {
        var a := Establish(i, memory(i), mid(i), now);
        ReestablishFromIsRun(Next(c, a), i + 1, memory, mid, now);
        RunCons(c, a, rest);
      } else {
        ReestablishFromIsRun(c, i + 1, memory, mid, now);
        assert [] + rest == rest;
      }
    }
  }
}
