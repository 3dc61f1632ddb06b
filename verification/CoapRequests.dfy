/** The list of outstanding CoAP requests (`src/zephyr_coap_req.c`): submitting, receiving, polling,
    cancelling, connecting and disconnecting, as functions on the list and a log of effects. */
module CoapRequests {
  import opened Basics
  import opened Machine32
  import Retransmission
  import ObserveOrder
  import Tokens
  import BlockDownload
  import BlockUpload

  type Token = seq<Byte>

  const TOKEN_LEN: nat := Tokens.TOKEN_LEN

  /** The request message a request refers to: an observation slot of the client, or one of its own. */
  datatype MsgRef = SlotMsg(slot: nat) | HeapMsg(address: nat)

  /** `struct coap_block_context`. */
  datatype BlockCtx = BlockCtx(current: nat, szx: nat, total: nat)

  /** `struct golioth_coap_req`. `id` is its identity; `postSzx` the block size exponent in its
      message, for block uploads. */
  datatype Req = Req(
    id: nat,
    token: Token,
    mid: nat,
    isObserve: bool,
    isPending: bool,
    msg: MsgRef,
    pending: Retransmission.Pending,
    reply: ObserveOrder.Reply,
    block: BlockCtx,
    postSzx: nat)

  /** `struct golioth_req_rsp`, and the block size exponent its receiver will read from the message. */
  datatype Rsp = Rsp(status: Status, code: nat, data: seq<Byte>, off: nat, total: nat, isLast: bool, szx: nat)

  datatype Event =
    | Called(id: nat, rsp: Rsp)
    | Freed(id: nat)
    | Sent(id: nat)
    | Released(token: Token)

  /** What the block helpers of the CoAP library make of a response with a Block2 option: whether it is
      block 0, the new offset and total size (None: an error), and the offset of the next block. */
  datatype Block2 = Block2(first: bool, update: Option<(nat, nat)>, next: int)

  /** A received packet; `block1` is the size exponent taken from a Block1 option, if that worked. */
  datatype Rx = Rx(mid: nat, token: Token, code: nat, observe: Option<int>, block2: Option<Block2>,
                   block1: Option<nat>, payload: seq<Byte>)

  /** The engine: `scheduled` remembers of every request ever entered into the list whether it was an
      observation; ids count up in that order. */
  datatype Engine = Engine(connected: bool, reqs: seq<Req>, log: seq<Event>, scheduled: seq<bool>)

  const INITIAL := Engine(false, [], [], [])

  // ---------------------------------------------------------------- submitting

  /** A request as `golioth_coap_req_new` and `golioth_coap_req_schedule` set it up. */
  function NewReq(id: nat, token: Token, mid: nat, isObserve: bool, msg: MsgRef, block: BlockCtx,
                  postSzx: nat, now: int): Req
  {
    Req(id, token, mid, isObserve, isObserve, msg, Retransmission.InitPending(U32(now)),
        ObserveOrder.INITIAL_REPLY, block, postSzx)
  }

  /** `golioth_coap_req_submit`: refused while disconnected. */
  function Submit(s: Engine, token: Token, mid: nat, isObserve: bool, msg: MsgRef, block: BlockCtx,
                  postSzx: nat, now: int): (bool, Engine)
  {
    if !s.connected then (false, s)
    else
      var req := NewReq(|s.scheduled|, token, mid, isObserve, msg, block, postSzx, now);
      (true, s.(reqs := s.reqs + [req], scheduled := s.scheduled + [isObserve]))
  }

  // ---------------------------------------------------------------- receiving

  /** What becomes of a request that was given a response: what its callback is told, if it is called,
      and the request if it stays in the list. */
  datatype Handled = Handled(rsp: Option<Rsp>, kept: Option<Req>)

  /** `cancel_and_free`: an observation without an error stays, as an idle one. */
  function Conclude(req: Req, rsp: Rsp, error: bool): Handled {
    Handled(Some(rsp), if req.isObserve && !error then Some(req.(isPending := false)) else None)
  }

  function FailedRsp(req: Req, status: Status, code: nat): Rsp {
    Rsp(status, code, [], 0, 0, false, req.postSzx)
  }

  /** The Block2 branch of `golioth_coap_req_reply_handler`; `cbRet` is what the callback returns. */
  function HandleBlock2(req: Req, rx: Rx, b: Block2, rxSzx: nat, cbRet: int): Handled {
    var ctx := if b.first then BlockCtx(0, rxSzx, 0) else req.block;
    match b.update
    case None => Conclude(req, FailedRsp(req, FAIL, rx.code), true)
    case Some((current, total)) =>
      var updated := ctx.(current := current, total := total);
      if current < ctx.current then
        // a block that was received before
        Handled(None, Some(req.(block := updated.(current := ctx.current))))
      else if b.next < 0 then Conclude(req, FailedRsp(req, FAIL, rx.code), true)
      else if b.next == 0 then
        Conclude(req.(block := updated), Rsp(OK, rx.code, rx.payload, current, total, true, req.postSzx), false)
      else
        var status := if req.isObserve then FAIL else OK;
        Conclude(req, Rsp(status, rx.code, rx.payload, current, total, false, req.postSzx),
                 cbRet != 0 || req.isObserve)
  }

  /** `golioth_coap_req_reply_handler`. */
  function Handle(req: Req, rx: Rx, rxSzx: nat, cbRet: int): Handled {
    if rx.code / 32 != 2 then Conclude(req, FailedRsp(req, COAP_RESPONSE, rx.code), false)
    else if rx.block2.Some? then HandleBlock2(req, rx, rx.block2.value, rxSzx, cbRet)
    else
      var asked := if rx.block1.Some? then rx.block1.value else req.block.szx;
      var lowered := if rx.block1.Some? && asked < req.postSzx then asked else req.postSzx;
      Conclude(req.(block := req.block.(szx := asked), postSzx := lowered),
               Rsp(OK, rx.code, rx.payload, 0, |rx.payload|, true, lowered), false)
  }

  /** The matching rules of `golioth_coap_req_process_rx`. */
  predicate Matches(req: Req, rx: Rx) {
    && !(req.mid == 0 && |req.token| == 0)
    && !(req.mid != rx.mid && |rx.token| == 0)
    && (|rx.token| > 0 ==> |rx.token| <= |req.token| && req.token[..|rx.token|] == rx.token)
  }

  /** The position of the first matching request, or the length of the list. */
  function FirstMatch(reqs: seq<Req>, rx: Rx): (i: nat)
    ensures i <= |reqs| && (i < |reqs| ==> Matches(reqs[i], rx))
    ensures forall j :: 0 <= j < i ==> !Matches(reqs[j], rx)
  {
    if reqs == [] || Matches(reqs[0], rx) then 0 else 1 + FirstMatch(reqs[1..], rx)
  }

  /** The effects of a handled response on the log and on the list. */
  function EventsOf(id: nat, h: Handled): seq<Event> {
    (if h.rsp.Some? then [Called(id, h.rsp.value)] else []) + (if h.kept.None? then [Freed(id)] else [])
  }

  function Apply(reqs: seq<Req>, i: nat, h: Handled): seq<Req>
    requires i < |reqs|
  {
    if h.kept.Some? then reqs[i := h.kept.value] else RemoveAt(reqs, i)
  }

  /** The sequence number and the time of an accepted notification are remembered. */
  function Noted(req: Req, rx: Rx, uptime: int): Req {
    if rx.observe.Some? then req.(reply := ObserveOrder.Reply(rx.observe.value, uptime)) else req
  }

  /** `golioth_coap_req_process_rx`: only the first match is served, and an observed response only if
      it is newer than the one accepted last. */
  function Receive(s: Engine, rx: Rx, uptime: int, rxSzx: nat, cbRet: int): Engine {
    var i := FirstMatch(s.reqs, rx);
    if i == |s.reqs| then s
    else
      var req := s.reqs[i];
      if rx.observe.Some? && !ObserveOrder.ReplyIsNewer(req.reply, rx.observe.value, uptime) then s
      else
        var h := Handle(Noted(req, rx, uptime), rx, rxSzx, cbRet);
        s.(reqs := Apply(s.reqs, i, h), log := s.log + EventsOf(req.id, h))
  }

  // ---------------------------------------------------------------- polling

  predicate IsIdle(req: Req) {
    req.isObserve && !req.isPending
  }

  /** `golioth_coap_req_poll_prepare`: the request if it stays, the effects, the returned timeout. */
  function PollOne(req: Req, now: int, ack: Retransmission.AckTimeout): (Option<Req>, seq<Event>, int) {
    match Retransmission.Poll(req.pending, ack, U32(now))
    case Expired => (None, [Called(req.id, FailedRsp(req, TIMEOUT, 0)), Freed(req.id)], INT64_MAX)
    case Waiting(pending, left, send) =>
      (Some(req.(pending := pending)), if send then [Sent(req.id)] else [], left)
  }

  /** `__golioth_coap_reqs_poll_prepare`, walking the list from its front; `ack` draws each request's
      initial timeout. */
  function PollList(reqs: seq<Req>, now: int, ack: nat -> Retransmission.AckTimeout): (seq<Req>, seq<Event>, int) {
    if reqs == [] then ([], [], INT64_MAX)
    else
      var (rest, events, least) := PollList(reqs[1..], now, ack);
      if IsIdle(reqs[0]) then ([reqs[0]] + rest, events, least)
      else
        var (kept, first, timeout) := PollOne(reqs[0], now, ack(reqs[0].id));
        ((if kept.Some? then [kept.value] else []) + rest, first + events, Min(timeout, least))
  }

  function PollAll(s: Engine, now: int, ack: nat -> Retransmission.AckTimeout): (Engine, int) {
    var (reqs, events, timeout) := PollList(s.reqs, now, ack);
    (s.(reqs := reqs, log := s.log + events), timeout)
  }

  // ---------------------------------------------------------------- cancelling

  /** `golioth_coap_reqs_cancel_all_with_reason`: observations are dropped without a callback. */
  function CancelEvents(reqs: seq<Req>, reason: Status): seq<Event> {
    if reqs == [] then []
    else HeadEvents(reqs[0], reason) + CancelEvents(reqs[1..], reason)
  }

  function HeadEvents(req: Req, reason: Status): seq<Event> {
    (if req.isObserve then [] else [Called(req.id, FailedRsp(req, reason, 0))]) + [Freed(req.id)]
  }

  /** `golioth_coap_reqs_on_disconnect`. */
  function Disconnect(s: Engine): Engine {
    s.(connected := false, reqs := [], log := s.log + CancelEvents(s.reqs, FAIL))
  }

  /** `golioth_coap_reqs_on_connect`. */
  function Connect(s: Engine): Engine {
    s.(connected := true)
  }

  predicate Observes(req: Req, msg: MsgRef) {
    req.isObserve && req.msg == msg
  }

  function FirstObserving(reqs: seq<Req>, msg: MsgRef): (i: nat)
    ensures i <= |reqs| && (i < |reqs| ==> Observes(reqs[i], msg))
    ensures forall j :: 0 <= j < i ==> !Observes(reqs[j], msg)
  {
    if reqs == [] || Observes(reqs[0], msg) then 0 else 1 + FirstObserving(reqs[1..], msg)
  }

  /** `golioth_coap_req_find_and_cancel_observation`: the first match is released at the server (by
      enqueueing a request for it) and freed. */
  function CancelObservation(s: Engine, msg: MsgRef): Engine {
    var i := FirstObserving(s.reqs, msg);
    if i == |s.reqs| then s
    else s.(reqs := RemoveAt(s.reqs, i),
            log := s.log + [Released(s.reqs[i].token), Freed(s.reqs[i].id)])
  }

  // ---------------------------------------------------------------- counting callbacks

  predicate IsCall(e: Event, id: nat) {
    e.Called? && e.id == id
  }

  predicate IsFree(e: Event, id: nat) {
    e.Freed? && e.id == id
  }

  ghost function Calls(log: seq<Event>, id: nat): nat {
    if log == [] then 0 else (if IsCall(log[0], id) then 1 else 0) + Calls(log[1..], id)
  }

  ghost function Frees(log: seq<Event>, id: nat): nat {
    if log == [] then 0 else (if IsFree(log[0], id) then 1 else 0) + Frees(log[1..], id)
  }

  lemma {:induction false} CountsConcat(a: seq<Event>, b: seq<Event>, id: nat)
    ensures Calls(a + b, id) == Calls(a, id) + Calls(b, id)
    ensures Frees(a + b, id) == Frees(a, id) + Frees(b, id)
  {
    if a == [] {
      assert a + b == b;
    } else {
      assert (a + b)[1..] == a[1..] + b;
      CountsConcat(a[1..], b, id);
    }
  }

  lemma CountsOne(e: Event, id: nat)
    ensures Calls([e], id) == if IsCall(e, id) then 1 else 0
    ensures Frees([e], id) == if IsFree(e, id) then 1 else 0
  {
    assert [e][1..] == [];
  }

  /** The log frees a request that had to be told of its end only directly after its callback. */
  ghost predicate Orderly(log: seq<Event>, observes: seq<bool>) {
    forall j :: 0 <= j < |log| && log[j].Freed? && log[j].id < |observes| && !observes[log[j].id] ==>
      j > 0 && IsCall(log[j - 1], log[j].id)
  }

  lemma OrderlyConcat(a: seq<Event>, b: seq<Event>, observes: seq<bool>)
    requires Orderly(a, observes) && Orderly(b, observes)
    ensures Orderly(a + b, observes)
  {
    var c := a + b;
    forall j | 0 <= j < |c| && c[j].Freed? && c[j].id < |observes| && !observes[c[j].id]
      ensures j > 0 && IsCall(c[j - 1], c[j].id)
    {
      if j < |a| {
        assert c[j] == a[j];
      } else {
        assert c[j] == b[j - |a|];
      }
    }
  }

  ghost predicate Live(reqs: seq<Req>, id: nat) {
    exists i :: 0 <= i < |reqs| && reqs[i].id == id
  }

  ghost predicate DistinctIds(reqs: seq<Req>) {
    forall i, j :: 0 <= i < j < |reqs| ==> reqs[i].id != reqs[j].id
  }

  /** The flags of live requests are the ones they were scheduled with. */
  ghost predicate Registered(reqs: seq<Req>, observes: seq<bool>) {
    forall i :: 0 <= i < |reqs| ==> reqs[i].id < |observes| && reqs[i].isObserve == observes[reqs[i].id]
  }

  /** One when the request left the list. */
  ghost function Left(before: seq<Req>, after: seq<Req>, id: nat): nat {
    if Live(before, id) && !Live(after, id) then 1 else 0
  }

  /** What a step's events must do for request `id`: freed exactly when it leaves the list, and told so
      by exactly one callback then, and by none before, unless it is an observation. */
  ghost predicate Settles(before: seq<Req>, after: seq<Req>, events: seq<Event>, observes: seq<bool>, id: nat) {
    && (Live(after, id) ==> Live(before, id))
    && Frees(events, id) == Left(before, after, id)
    && (id < |observes| && !observes[id] ==> Calls(events, id) == Left(before, after, id))
  }

  /** The invariant of the engine over whole runs. */
  ghost predicate Inv(s: Engine) {
    && DistinctIds(s.reqs) && Registered(s.reqs, s.scheduled)
    && (!s.connected ==> s.reqs == [])
    && Orderly(s.log, s.scheduled)
    && forall id :: 0 <= id < |s.scheduled| ==> Accounted(s, id)
  }

  /** A request is freed once it is no longer live, never twice; one that is not an observation has had
      its callback exactly once by then, and not before. */
  ghost predicate Accounted(s: Engine, id: nat)
    requires id < |s.scheduled|
  {
    && Frees(s.log, id) == (if Live(s.reqs, id) then 0 else 1)
    && (!s.scheduled[id] ==> Calls(s.log, id) == (if Live(s.reqs, id) then 0 else 1))
  }

  /** A step that schedules nothing keeps the invariant if its events settle every request. */
  lemma StepKeepsInv(s: Engine, t: Engine, events: seq<Event>)
    requires Inv(s) && t.scheduled == s.scheduled && t.log == s.log + events
    requires DistinctIds(t.reqs) && Registered(t.reqs, t.scheduled) && (!t.connected ==> t.reqs == [])
    requires Orderly(events, s.scheduled)
    requires forall id: nat :: Settles(s.reqs, t.reqs, events, s.scheduled, id)
    ensures Inv(t)
  {
    OrderlyConcat(s.log, events, s.scheduled);
    forall id | 0 <= id < |t.scheduled| ensures Accounted(t, id) {
      assert Accounted(s, id) && Settles(s.reqs, t.reqs, events, s.scheduled, id);
      CountsConcat(s.log, events, id);
    }
  }

  // ---------------------------------------------------------------- submit

  lemma {:induction false} NoEventsOfUnborn(log: seq<Event>, id: nat)
    requires forall j :: 0 <= j < |log| ==> !IsCall(log[j], id) && !IsFree(log[j], id)
    ensures Calls(log, id) == 0 && Frees(log, id) == 0
  {
    if log != [] {
      NoEventsOfUnborn(log[1..], id);
    }
  }

  /** Only requests already scheduled appear in the log. */
  ghost predicate KnownIds(s: Engine) {
    forall j :: 0 <= j < |s.log| ==>
      (s.log[j].Called? || s.log[j].Freed? ==> s.log[j].id < |s.scheduled|)
  }

  lemma SubmitKeepsInv(s: Engine, token: Token, mid: nat, isObserve: bool, msg: MsgRef, block: BlockCtx,
                       postSzx: nat, now: int)
    requires Inv(s) && KnownIds(s)
    ensures var (ok, t) := Submit(s, token, mid, isObserve, msg, block, postSzx, now);
            var id := |s.scheduled|;
            && Inv(t) && KnownIds(t)
            && (ok <==> s.connected) && (!ok ==> t == s)
            // the new request is live, and has been neither called back nor freed
            && (ok ==> t.scheduled == s.scheduled + [isObserve] && Live(t.reqs, id)
                       && Calls(t.log, id) == 0 && Frees(t.log, id) == 0)
  {
    var t := Submit(s, token, mid, isObserve, msg, block, postSzx, now).1;
    if s.connected {
      var id := |s.scheduled|;
      NoEventsOfUnborn(s.log, id);
      assert t.reqs[|s.reqs|].id == id;
      forall k | 0 <= k < |t.scheduled| ensures Accounted(t, k) {
        if k < id {
          assert Accounted(s, k);
          if Live(s.reqs, k) {
            var i :| 0 <= i < |s.reqs| && s.reqs[i].id == k;
            assert t.reqs[i].id == k;
          }
        }
      }
    }
  }

  /** While connected, a request becomes the last of the list as it was handed in, with nothing sent yet;
      one that observes waits for its first answer. */
  lemma SubmitOutcome(s: Engine, token: Token, mid: nat, isObserve: bool, msg: MsgRef, block: BlockCtx,
                      postSzx: nat, now: int)
    ensures var (ok, t) := Submit(s, token, mid, isObserve, msg, block, postSzx, now);
            && (ok <==> s.connected) && t.connected == s.connected && t.log == s.log
            && (!ok ==> t == s)
            && (ok ==>
                  && |t.reqs| == |s.reqs| + 1 && t.reqs[..|s.reqs|] == s.reqs
                  && t.scheduled == s.scheduled + [isObserve]
                  && var r := t.reqs[|s.reqs|];
                     && r.id == |s.scheduled| && r.token == token && r.mid == mid && r.isObserve == isObserve
                     && r.msg == msg && r.block == block && r.postSzx == postSzx && (isObserve ==> r.isPending)
                     && r.pending.t0 == U32(now) && r.pending.timeout == 0 && r.pending.retries == 3
                     && r.reply == ObserveOrder.Reply(0, -128_000))
  {
  }

  // ---------------------------------------------------------------- receive

  lemma RemoveLive(reqs: seq<Req>, i: nat, id: nat)
    requires DistinctIds(reqs) && i < |reqs|
    ensures Live(RemoveAt(reqs, i), id) <==> Live(reqs, id) && id != reqs[i].id
  {
    var after := RemoveAt(reqs, i);
    if Live(reqs, id) && id != reqs[i].id {
      var j :| 0 <= j < |reqs| && reqs[j].id == id;
      RemovedAt(reqs, i, if j < i then j else j - 1);
    }
    if Live(after, id) {
      var j :| 0 <= j < |after| && after[j].id == id;
      RemovedAt(reqs, i, j);
    }
  }

  lemma RemoveKeeps(reqs: seq<Req>, i: nat, observes: seq<bool>)
    requires DistinctIds(reqs) && Registered(reqs, observes) && i < |reqs|
    ensures DistinctIds(RemoveAt(reqs, i)) && Registered(RemoveAt(reqs, i), observes)
    ensures forall id: nat :: Live(RemoveAt(reqs, i), id) <==> Live(reqs, id) && id != reqs[i].id
  {
    forall j | 0 <= j < |reqs| - 1 ensures RemoveAt(reqs, i)[j] == reqs[if j < i then j else j + 1] {
      RemovedAt(reqs, i, j);
    }
    forall id: nat ensures Live(RemoveAt(reqs, i), id) <==> Live(reqs, id) && id != reqs[i].id {
      RemoveLive(reqs, i, id);
    }
  }

  lemma UpdateKeeps(reqs: seq<Req>, i: nat, r: Req, observes: seq<bool>)
    requires DistinctIds(reqs) && Registered(reqs, observes) && i < |reqs|
    requires r.id == reqs[i].id && r.isObserve == reqs[i].isObserve
    ensures DistinctIds(reqs[i := r]) && Registered(reqs[i := r], observes)
    ensures forall id: nat :: Live(reqs[i := r], id) <==> Live(reqs, id)
  {
    forall id: nat ensures Live(reqs[i := r], id) <==> Live(reqs, id) {
      if Live(reqs, id) {
        var j :| 0 <= j < |reqs| && reqs[j].id == id;
        assert reqs[i := r][j].id == id;
      }
    }
  }

  /** What can come out of a response: a request that is not an observation is called back exactly when
      it is dropped; nothing changes a request's identity. */
  lemma HandleFacts(req: Req, rx: Rx, rxSzx: nat, cbRet: int)
    ensures var h := Handle(req, rx, rxSzx, cbRet);
            && (h.kept.Some? ==> h.kept.value.id == req.id && h.kept.value.isObserve == req.isObserve
                                 && h.kept.value.token == req.token && h.kept.value.msg == req.msg)
            && (h.kept.None? ==> h.rsp.Some?)
            && (!req.isObserve ==> (h.rsp.Some? <==> h.kept.None?))
            && (h.rsp.Some? ==> h.rsp.value.szx <= req.postSzx)
  {
  }

  lemma EventCounts(id: nat, h: Handled, other: nat)
    ensures Calls(EventsOf(id, h), other) == if other == id && h.rsp.Some? then 1 else 0
    ensures Frees(EventsOf(id, h), other) == if other == id && h.kept.None? then 1 else 0
  {
    var called := if h.rsp.Some? then [Called(id, h.rsp.value)] else [];
    var freed := if h.kept.None? then [Freed(id)] else [];
    CountsConcat(called, freed, other);
    if h.rsp.Some? {
      CountsOne(called[0], other);
    }
    if h.kept.None? {
      CountsOne(freed[0], other);
    }
  }

  lemma ReceiveKeepsInv(s: Engine, rx: Rx, uptime: int, rxSzx: nat, cbRet: int)
    requires Inv(s) && KnownIds(s)
    ensures Inv(Receive(s, rx, uptime, rxSzx, cbRet)) && KnownIds(Receive(s, rx, uptime, rxSzx, cbRet))
  {
    var i := FirstMatch(s.reqs, rx);
    var t := Receive(s, rx, uptime, rxSzx, cbRet);
    if t != s {
      var req := s.reqs[i];
      var served := Noted(req, rx, uptime);
      var h := Handle(served, rx, rxSzx, cbRet);
      HandleFacts(served, rx, rxSzx, cbRet);
      ApplyKeepsInv(s, t, i, h);
    }
  }

  lemma ApplyKeepsInv(s: Engine, t: Engine, i: nat, h: Handled)
    requires Inv(s) && KnownIds(s) && i < |s.reqs|
    requires t == s.(reqs := Apply(s.reqs, i, h), log := s.log + EventsOf(s.reqs[i].id, h))
    requires h.kept.Some? ==> h.kept.value.id == s.reqs[i].id && h.kept.value.isObserve == s.reqs[i].isObserve
    requires h.kept.None? ==> h.rsp.Some?
    requires !s.reqs[i].isObserve ==> (h.rsp.Some? <==> h.kept.None?)
    ensures Inv(t) && KnownIds(t)
  {
    var req := s.reqs[i];
    var events := EventsOf(req.id, h);
    if h.kept.Some? {
      UpdateKeeps(s.reqs, i, h.kept.value, s.scheduled);
    } else {
      RemoveKeeps(s.reqs, i, s.scheduled);
    }
    assert Live(s.reqs, req.id);
    forall id: nat ensures Settles(s.reqs, t.reqs, events, s.scheduled, id) {
      EventCounts(req.id, h, id);
    }
    StepKeepsInv(s, t, events);
  }

  // ---------------------------------------------------------------- poll

  lemma LiveCons(r: Req, rest: seq<Req>, id: nat)
    ensures Live([r] + rest, id) <==> r.id == id || Live(rest, id)
  {
    var all := [r] + rest;
    if Live(rest, id) {
      var i :| 0 <= i < |rest| && rest[i].id == id;
      assert all[i + 1].id == id;
    }
    if Live(all, id) {
      var i :| 0 <= i < |all| && all[i].id == id;
      assert i > 0 ==> rest[i - 1].id == id;
    }
    assert all[0].id == r.id;
  }

  /** The ids of a poll's survivors are among those before, in the same order and with the same flags;
      what is dropped is called back and freed once. */
  ghost predicate PollSettles(reqs: seq<Req>, after: seq<Req>, events: seq<Event>, observes: seq<bool>) {
    && DistinctIds(after) && Registered(after, observes) && Orderly(events, observes)
    && (forall id: nat :: Settles(reqs, after, events, observes, id))
    && (forall j :: 0 <= j < |events| ==> (events[j].Called? || events[j].Freed? ==> events[j].id < |observes|))
  }

  lemma PollHead(reqs: seq<Req>, kept: Option<Req>, first: seq<Event>, after: seq<Req>, events: seq<Event>,
                 observes: seq<bool>)
    requires reqs != [] && DistinctIds(reqs) && Registered(reqs, observes)
    requires PollSettles(reqs[1..], after, events, observes)
    requires kept.Some? ==> kept.value.id == reqs[0].id && kept.value.isObserve == reqs[0].isObserve
                            && (first == [] || first == [Sent(reqs[0].id)])
    requires kept.None? ==> |first| == 2 && IsCall(first[0], reqs[0].id) && first[1] == Freed(reqs[0].id)
    ensures PollSettles(reqs, (if kept.Some? then [kept.value] else []) + after, first + events, observes)
  {
    var whole := (if kept.Some? then [kept.value] else []) + after;
    var head := reqs[0];
    assert reqs == [head] + reqs[1..];
    assert !Live(reqs[1..], head.id);
    assert Settles(reqs[1..], after, events, observes, head.id);
    forall i | 0 <= i < |after| ensures after[i].id != head.id {
      assert Live(after, after[i].id);
      assert Settles(reqs[1..], after, events, observes, after[i].id);
    }
    forall id: nat ensures Settles(reqs, whole, first + events, observes, id) {
      assert Settles(reqs[1..], after, events, observes, id);
      HeadSettles(head, reqs[1..], kept, first, after, events, observes, id);
    }
    OrderlyConcat(first, events, observes);
    HeadKeepsIds(head, kept, after, observes);
    assert forall j :: 0 <= j < |first + events| ==>
             (first + events)[j] == if j < |first| then first[j] else events[j - |first|];
  }

  lemma HeadKeepsIds(head: Req, kept: Option<Req>, after: seq<Req>, observes: seq<bool>)
    requires DistinctIds(after) && Registered(after, observes)
    requires head.id < |observes| && observes[head.id] == head.isObserve
    requires forall i :: 0 <= i < |after| ==> after[i].id != head.id
    requires kept.Some? ==> kept.value.id == head.id && kept.value.isObserve == head.isObserve
    ensures var whole := (if kept.Some? then [kept.value] else []) + after;
            DistinctIds(whole) && Registered(whole, observes)
  {
    if kept.None? {
      assert [] + after == after;
    } else {
      var whole := [kept.value] + after;
      assert forall i :: 0 < i < |whole| ==> whole[i] == after[i - 1];
      forall i, j | 0 <= i < j < |whole| ensures whole[i].id != whole[j].id {
        assert whole[j] == after[j - 1];
      }
    }
  }

  lemma HeadSettles(head: Req, tail: seq<Req>, kept: Option<Req>, first: seq<Event>, after: seq<Req>,
                    events: seq<Event>, observes: seq<bool>, id: nat)
    requires Settles(tail, after, events, observes, id) && !Live(tail, head.id) && !Live(after, head.id)
    requires kept.Some? ==> kept.value.id == head.id && (first == [] || first == [Sent(head.id)])
    requires kept.None? ==> |first| == 2 && IsCall(first[0], head.id) && first[1] == Freed(head.id)
    ensures Settles([head] + tail, (if kept.Some? then [kept.value] else []) + after, first + events, observes, id)
  {
    LiveCons(head, tail, id);
    if kept.Some? {
      LiveCons(kept.value, after, id);
    } else {
      assert [] + after == after;
    }
    CountsConcat(first, events, id);
    FirstCounts(first, head.id, kept.None?, id);
  }

  lemma FirstCounts(first: seq<Event>, head: nat, dropped: bool, id: nat)
    requires dropped ==> |first| == 2 && IsCall(first[0], head) && first[1] == Freed(head)
    requires !dropped ==> first == [] || first == [Sent(head)]
    ensures Calls(first, id) == Frees(first, id) == if dropped && id == head then 1 else 0
  {
    if dropped {
      assert first == [first[0]] + [first[1]];
      CountsConcat([first[0]], [first[1]], id);
      CountsOne(first[0], id);
      CountsOne(first[1], id);
    } else if first != [] {
      CountsOne(first[0], id);
    }
  }

  lemma {:induction false} PollListSettles(reqs: seq<Req>, now: int, ack: nat -> Retransmission.AckTimeout,
                                           observes: seq<bool>)
    requires DistinctIds(reqs) && Registered(reqs, observes)
    ensures var (after, events, _) := PollList(reqs, now, ack); PollSettles(reqs, after, events, observes)
  {
    if reqs != [] {
      PollListSettles(reqs[1..], now, ack, observes);
      var (rest, events, least) := PollList(reqs[1..], now, ack);
      if IsIdle(reqs[0]) {
        PollHead(reqs, Some(reqs[0]), [], rest, events, observes);
        assert [] + events == events;
      } else {
        var (kept, first, timeout) := PollOne(reqs[0], now, ack(reqs[0].id));
        PollHead(reqs, kept, first, rest, events, observes);
      }
    } else {
      assert forall id: nat :: !Live(reqs, id);
    }
  }

  lemma PollKeepsInv(s: Engine, now: int, ack: nat -> Retransmission.AckTimeout)
    requires Inv(s) && KnownIds(s)
    ensures Inv(PollAll(s, now, ack).0) && KnownIds(PollAll(s, now, ack).0)
  {
    PollListSettles(s.reqs, now, ack, s.scheduled);
    var (after, events, _) := PollList(s.reqs, now, ack);
    if !s.connected {
      assert after == [];
    }
    StepKeepsInv(s, PollAll(s, now, ack).0, events);
  }

  function TimeLeft(req: Req, now: int): int {
    Retransmission.TimeLeft(req.pending, U32(now))
  }

  /** `timeout` is the least time left over the requests that are not idle observations (the largest
      value if there are none), and all of it lies strictly ahead. */
  ghost predicate LeastTimeLeft(reqs: seq<Req>, now: int, timeout: int) {
    && (forall i :: 0 <= i < |reqs| && !IsIdle(reqs[i]) ==> 0 < TimeLeft(reqs[i], now) && timeout <= TimeLeft(reqs[i], now))
    && (timeout == INT64_MAX ==> forall i :: 0 <= i < |reqs| ==> IsIdle(reqs[i]))
    && (timeout != INT64_MAX ==>
          exists i :: 0 <= i < |reqs| && !IsIdle(reqs[i]) && timeout == TimeLeft(reqs[i], now))
  }

  lemma LeastWithHead(r: Req, rest: seq<Req>, now: int, left: int, least: int)
    requires LeastTimeLeft(rest, now, least)
    requires !IsIdle(r) && 0 < left == TimeLeft(r, now) < INT64_MAX
    ensures LeastTimeLeft([r] + rest, now, Min(left, least))
  {
    var all := [r] + rest;
    assert all[0] == r;
    if left > least {
      var i :| 0 <= i < |rest| && !IsIdle(rest[i]) && least == TimeLeft(rest[i], now);
      assert all[i + 1] == rest[i];
    }
  }

  lemma LeastWithIdle(r: Req, rest: seq<Req>, now: int, least: int)
    requires LeastTimeLeft(rest, now, least) && IsIdle(r)
    ensures LeastTimeLeft([r] + rest, now, least)
  {
    var all := [r] + rest;
    if least != INT64_MAX {
      var i :| 0 <= i < |rest| && !IsIdle(rest[i]) && least == TimeLeft(rest[i], now);
      assert all[i + 1] == rest[i];
    }
  }

  /** After a poll of the whole list, every remaining request that is not an idle observation has its
      deadline strictly ahead, and the timeout returned is exactly the least time left, although
      entries are removed during the walk. */
  lemma {:induction false} PollDeadlines(reqs: seq<Req>, now: int, ack: nat -> Retransmission.AckTimeout)
    ensures var (after, _, timeout) := PollList(reqs, now, ack); LeastTimeLeft(after, now, timeout)
    ensures PollList(reqs, now, ack).2 <= INT64_MAX
  {
    if reqs != [] {
      PollDeadlines(reqs[1..], now, ack);
      var (rest, _, least) := PollList(reqs[1..], now, ack);
      if IsIdle(reqs[0]) {
        LeastWithIdle(reqs[0], rest, now, least);
      } else {
        Retransmission.WaitingIsPositive(reqs[0].pending, ack(reqs[0].id), U32(now));
        var (kept, _, timeout) := PollOne(reqs[0], now, ack(reqs[0].id));
        if kept.Some? {
          LeastWithHead(kept.value, rest, now, timeout, least);
        } else {
          assert [] + rest == rest;
        }
      }
    }
  }

  // ---------------------------------------------------------------- cancel and disconnect

  lemma {:induction false} CancelAllOrderly(reqs: seq<Req>, reason: Status, observes: seq<bool>)
    requires Registered(reqs, observes)
    ensures var events := CancelEvents(reqs, reason);
            && Orderly(events, observes)
            && (forall j :: 0 <= j < |events| ==> (events[j].Called? || events[j].Freed? ==> events[j].id < |observes|))
  {
    if reqs != [] {
      CancelAllOrderly(reqs[1..], reason, observes);
      OrderlyConcat(HeadEvents(reqs[0], reason), CancelEvents(reqs[1..], reason), observes);
    }
  }

  lemma {:induction false} CancelAllSettles(reqs: seq<Req>, reason: Status, observes: seq<bool>, id: nat)
    requires DistinctIds(reqs) && Registered(reqs, observes)
    ensures Settles(reqs, [], CancelEvents(reqs, reason), observes, id)
  {
    if reqs != [] {
      var head, tail := reqs[0], reqs[1..];
      CancelAllSettles(tail, reason, observes, id);
      assert reqs == [head] + tail;
      assert !Live(tail, head.id);
      LiveCons(head, tail, id);
      CountsConcat(HeadEvents(head, reason), CancelEvents(tail, reason), id);
      HeadCounts(head, HeadEvents(head, reason), id);
    }
  }

  lemma HeadCounts(head: Req, first: seq<Event>, id: nat)
    requires first == [Freed(head.id)] || (|first| == 2 && IsCall(first[0], head.id) && first[1] == Freed(head.id))
    ensures Frees(first, id) == if id == head.id then 1 else 0
    ensures Calls(first, id) == if id == head.id && |first| == 2 then 1 else 0
  {
    if |first| == 2 {
      FirstCounts(first, head.id, true, id);
    } else {
      CountsOne(first[0], id);
    }
  }

  lemma DisconnectKeepsInv(s: Engine)
    requires Inv(s) && KnownIds(s)
    ensures Inv(Disconnect(s)) && KnownIds(Disconnect(s))
    ensures !Disconnect(s).connected && Disconnect(s).reqs == []
  {
    CancelAllOrderly(s.reqs, FAIL, s.scheduled);
    forall id: nat ensures Settles(s.reqs, [], CancelEvents(s.reqs, FAIL), s.scheduled, id) {
      CancelAllSettles(s.reqs, FAIL, s.scheduled, id);
    }
    StepKeepsInv(s, Disconnect(s), CancelEvents(s.reqs, FAIL));
  }

  lemma ConnectKeepsInv(s: Engine)
    requires Inv(s) && KnownIds(s)
    ensures Inv(Connect(s)) && KnownIds(Connect(s))
  {
    var t := Connect(s);
    forall id | 0 <= id < |t.scheduled| ensures Accounted(t, id) {
      assert Accounted(s, id);
    }
  }

  lemma CancelKeepsInv(s: Engine, msg: MsgRef)
    requires Inv(s) && KnownIds(s)
    ensures Inv(CancelObservation(s, msg)) && KnownIds(CancelObservation(s, msg))
  {
    var i := FirstObserving(s.reqs, msg);
    if i < |s.reqs| {
      var t := CancelObservation(s, msg);
      var req := s.reqs[i];
      var events := [Released(req.token), Freed(req.id)];
      RemoveKeeps(s.reqs, i, s.scheduled);
      assert events == [Released(req.token)] + [Freed(req.id)];
      forall id: nat ensures Settles(s.reqs, t.reqs, events, s.scheduled, id) {
        CountsConcat([Released(req.token)], [Freed(req.id)], id);
        CountsOne(Released(req.token), id);
        CountsOne(Freed(req.id), id);
      }
      StepKeepsInv(s, t, events);
    }
  }

  // ---------------------------------------------------------------- what a request's events are

  predicate Concerns(e: Event, id: nat) {
    !e.Released? && e.id == id
  }

  /** The events of one request, in order. */
  ghost function About(log: seq<Event>, id: nat): seq<Event> {
    if log == [] then [] else (if Concerns(log[0], id) then [log[0]] else []) + About(log[1..], id)
  }

  lemma {:induction false} AboutConcat(a: seq<Event>, b: seq<Event>, id: nat)
    ensures About(a + b, id) == About(a, id) + About(b, id)
  {
    if a == [] {
      assert a + b == b;
    } else {
      var head := if Concerns(a[0], id) then [a[0]] else [];
      AboutConcat(a[1..], b, id);
      assert (a + b)[1..] == a[1..] + b;
      Associative(head, About(a[1..], id), About(b, id));
    }
  }

  lemma {:induction false} AboutAll(log: seq<Event>, id: nat)
    requires forall j :: 0 <= j < |log| ==> Concerns(log[j], id)
    ensures About(log, id) == log
  {
    if log != [] {
      AboutAll(log[1..], id);
    }
  }

  lemma {:induction false} AboutNone(log: seq<Event>, id: nat)
    requires forall j :: 0 <= j < |log| ==> !Concerns(log[j], id)
    ensures About(log, id) == []
  {
    if log != [] {
      AboutNone(log[1..], id);
    }
  }

  /** An answer without data. */
  function Bare(req: Req, status: Status, code: nat): Rsp {
    Rsp(status, code, [], 0, 0, false, req.postSzx)
  }

  /** What a poll does to one request: it is sent when a period of it begins, and told of its timeout and
      freed when it has none left. */
  function PollEvents(req: Req, now: int, ack: Retransmission.AckTimeout): seq<Event> {
    if IsIdle(req) then []
    else
      match Retransmission.Poll(req.pending, ack, U32(now))
      case Expired => [Called(req.id, Bare(req, TIMEOUT, 0)), Freed(req.id)]
      case Waiting(_, _, send) => if send then [Sent(req.id)] else []
  }

  lemma {:induction false} PollIgnores(reqs: seq<Req>, now: int, ack: nat -> Retransmission.AckTimeout, id: nat)
    requires forall j :: 0 <= j < |reqs| ==> reqs[j].id != id || IsIdle(reqs[j])
    ensures About(PollList(reqs, now, ack).1, id) == []
  {
    if reqs != [] {
      PollIgnores(reqs[1..], now, ack, id);
      if !IsIdle(reqs[0]) {
        var first := PollOne(reqs[0], now, ack(reqs[0].id)).1;
        AboutNone(first, id);
        AboutConcat(first, PollList(reqs[1..], now, ack).1, id);
      }
    }
  }

  /** The events of a poll of the list, request by request. */
  lemma {:induction false} PollReaches(reqs: seq<Req>, now: int, ack: nat -> Retransmission.AckTimeout, i: nat)
    requires DistinctIds(reqs) && i < |reqs|
    ensures About(PollList(reqs, now, ack).1, reqs[i].id) == PollEvents(reqs[i], now, ack(reqs[i].id))
  {
    var head, tail, id := reqs[0], reqs[1..], reqs[i].id;
    var first := if IsIdle(head) then [] else PollOne(head, now, ack(head.id)).1;
    AboutConcat(first, PollList(tail, now, ack).1, id);
    assert PollList(reqs, now, ack).1 == first + PollList(tail, now, ack).1;
    if i == 0 {
      AboutAll(first, id);
      PollIgnores(tail, now, ack, id);
    } else {
      AboutNone(first, id);
      PollReaches(tail, now, ack, i - 1);
    }
  }

  lemma {:induction false} CancelEventsIgnore(reqs: seq<Req>, reason: Status, id: nat)
    requires forall j :: 0 <= j < |reqs| ==> reqs[j].id != id
    ensures About(CancelEvents(reqs, reason), id) == []
  {
    if reqs != [] {
      CancelEventsIgnore(reqs[1..], reason, id);
      AboutNone(HeadEvents(reqs[0], reason), id);
      AboutConcat(HeadEvents(reqs[0], reason), CancelEvents(reqs[1..], reason), id);
    }
  }

  lemma {:induction false} CancelEventsReach(reqs: seq<Req>, reason: Status, i: nat)
    requires DistinctIds(reqs) && i < |reqs|
    ensures About(CancelEvents(reqs, reason), reqs[i].id)
            == (if reqs[i].isObserve then [] else [Called(reqs[i].id, Bare(reqs[i], reason, 0))]) + [Freed(reqs[i].id)]
  {
    var head, tail, id := reqs[0], reqs[1..], reqs[i].id;
    AboutConcat(HeadEvents(head, reason), CancelEvents(tail, reason), id);
    if i == 0 {
      AboutAll(HeadEvents(head, reason), id);
      CancelEventsIgnore(tail, reason, id);
    } else {
      AboutNone(HeadEvents(head, reason), id);
      CancelEventsReach(tail, reason, i - 1);
    }
  }

  /** A disconnect tells every plain request of a failure, without data, and observations of nothing. */
  lemma DisconnectTells(s: Engine, i: nat)
    requires DistinctIds(s.reqs) && i < |s.reqs|
    ensures var t, req := Disconnect(s), s.reqs[i];
            && s.log <= t.log
            && About(t.log[|s.log|..], req.id)
               == (if req.isObserve then [] else [Called(req.id, Bare(req, FAIL, 0))]) + [Freed(req.id)]
  {
    CancelEventsReach(s.reqs, FAIL, i);
    assert Disconnect(s).log[|s.log|..] == CancelEvents(s.reqs, FAIL);
  }

  /** Cancelling an observation releases its own token at the server, before it is freed; without one
      nothing happens. */
  lemma CancelReleases(s: Engine, msg: MsgRef)
    ensures var i := FirstObserving(s.reqs, msg);
            var t := CancelObservation(s, msg);
            && t.connected == s.connected && t.scheduled == s.scheduled
            && (i == |s.reqs| ==> t == s)
            && (i < |s.reqs| ==>
                  && t.reqs == s.reqs[..i] + s.reqs[i + 1..]
                  && t.log == s.log + [Released(s.reqs[i].token), Freed(s.reqs[i].id)])
  {
  }

  // ---------------------------------------------------------------- what a callback is told

  /** The answer to a request by a packet that is no block of a larger response: a success comes with the
      whole payload, and with the block size of the request unless the server asked for a smaller one;
      anything else with the code only. */
  function WholeAnswer(req: Req, rx: Rx): Rsp {
    if rx.code / 32 == 2 then
      Rsp(OK, rx.code, rx.payload, 0, |rx.payload|, true,
          match rx.block1 case Some(asked) => if asked < req.postSzx then asked else req.postSzx case None => req.postSzx)
    else Bare(req, COAP_RESPONSE, rx.code)
  }

  /** The packet is looked at: it is no notification, or a newer one. */
  predicate InTurn(req: Req, rx: Rx, uptime: int) {
    rx.observe.None? || ObserveOrder.ReplyIsNewer(req.reply, rx.observe.value, uptime)
  }

  /** A matching packet that is not a block answers the request: its callback is told so once; then a plain
      request is freed, and an observation stays, idle from now on, in its place. */
  lemma WholeAnswerIsHandedOver(s: Engine, rx: Rx, uptime: int, rxSzx: nat, cbRet: int)
    requires FirstMatch(s.reqs, rx) < |s.reqs| && InTurn(s.reqs[FirstMatch(s.reqs, rx)], rx, uptime)
    requires rx.block2.None? || rx.code / 32 != 2
    ensures var i := FirstMatch(s.reqs, rx);
            var t, req := Receive(s, rx, uptime, rxSzx, cbRet), s.reqs[i];
            var told := Called(req.id, WholeAnswer(req, rx));
            if req.isObserve then
              && t.log == s.log + [told] && |t.reqs| == |s.reqs| && t.reqs == s.reqs[i := t.reqs[i]]
              && IsIdle(t.reqs[i]) && t.reqs[i].id == req.id && t.reqs[i].token == req.token && t.reqs[i].msg == req.msg
            else t.log == s.log + [told, Freed(req.id)] && t.reqs == s.reqs[..i] + s.reqs[i + 1..]
  {
  }

  /** A block that cannot be used fails the request, without data; and a notification in blocks is handed
      over with its first block, as a failure, and ends the observation. */
  lemma UnusableBlockFails(s: Engine, rx: Rx, uptime: int, rxSzx: nat, cbRet: int)
    requires FirstMatch(s.reqs, rx) < |s.reqs| && InTurn(s.reqs[FirstMatch(s.reqs, rx)], rx, uptime)
    requires rx.block2.Some? && rx.code / 32 == 2
    requires var b, req := rx.block2.value, s.reqs[FirstMatch(s.reqs, rx)];
             b.update.None? || (b.first || req.block.current <= b.update.value.0)
    requires var b, req := rx.block2.value, s.reqs[FirstMatch(s.reqs, rx)];
             b.update.None? || b.next < 0 || (b.next > 0 && req.isObserve)
    ensures var i := FirstMatch(s.reqs, rx);
            var t, req, b := Receive(s, rx, uptime, rxSzx, cbRet), s.reqs[i], rx.block2.value;
            && t.reqs == s.reqs[..i] + s.reqs[i + 1..] && |t.log| == |s.log| + 2
            && t.log[..|s.log|] == s.log && t.log[|s.log| + 1] == Freed(req.id) && IsCall(t.log[|s.log|], req.id)
            && t.log[|s.log|].rsp.status == FAIL
            && t.log[|s.log|].rsp.data == (if b.update.Some? && b.next > 0 then rx.payload else [])
  {
  }

  /** The block size reported for an uploaded block is the one the upload goes on with. */
  lemma EngineNegotiates(req: Req, rx: Rx)
    requires req.postSzx <= 6 && rx.code / 32 == 2
    ensures WholeAnswer(req, rx).szx == BlockUpload.Negotiate(req.postSzx, rx.block1)
  {
  }

  /** Which packets match: one with a token, every request whose token begins with it; one without, the
      requests with its message id. */
  lemma MatchingRules(req: Req, rx: Rx)
    requires req.mid != 0 || req.token != []
    ensures rx.token != [] ==> (Matches(req, rx) <==> rx.token <= req.token)
    ensures rx.token == [] ==> (Matches(req, rx) <==> req.mid == rx.mid)
  {
  }

  // ---------------------------------------------------------------- routing

  ghost predicate DistinctTokens(reqs: seq<Req>) {
    forall i, j :: 0 <= i < j < |reqs| ==> reqs[i].token != reqs[j].token
  }

  ghost predicate FullTokens(reqs: seq<Req>) {
    forall i :: 0 <= i < |reqs| ==> |reqs[i].token| == TOKEN_LEN
  }

  /** With distinct tokens, a response carrying a full-length token serves the request with that token
      and touches no other: it is kept or dropped in its place, and only it is called back or freed.
      Without such a request nothing happens at all. */
  lemma ResponseTouchesOnlyItsRequest(s: Engine, rx: Rx, uptime: int, rxSzx: nat, cbRet: int, i: nat)
    requires DistinctTokens(s.reqs) && FullTokens(s.reqs) && |rx.token| == TOKEN_LEN && i <= |s.reqs|
    requires i < |s.reqs| ==> s.reqs[i].token == rx.token
    requires i == |s.reqs| ==> forall j :: 0 <= j < |s.reqs| ==> s.reqs[j].token != rx.token
    ensures var t := Receive(s, rx, uptime, rxSzx, cbRet);
            && t.connected == s.connected && t.scheduled == s.scheduled && s.log <= t.log
            && (i == |s.reqs| ==> t == s)
            && (i < |s.reqs| ==>
                  && (|| t.reqs == RemoveAt(s.reqs, i)
                      || (|t.reqs| == |s.reqs| && t.reqs == s.reqs[i := t.reqs[i]]
                          && t.reqs[i].id == s.reqs[i].id && t.reqs[i].token == rx.token))
                  && forall e :: e in t.log[|s.log|..] ==> IsCall(e, s.reqs[i].id) || IsFree(e, s.reqs[i].id))
  {
    forall j | 0 <= j < |s.reqs| ensures Matches(s.reqs[j], rx) <==> j == i {
      assert s.reqs[j].token[..TOKEN_LEN] == s.reqs[j].token;
      if i < |s.reqs| && j != i {
        assert s.reqs[j].token != s.reqs[i].token;
      }
    }
    var t := Receive(s, rx, uptime, rxSzx, cbRet);
    if t != s {
      var req := s.reqs[i];
      var served := Noted(req, rx, uptime);
      HandleFacts(served, rx, rxSzx, cbRet);
      assert t.log[|s.log|..] == EventsOf(req.id, Handle(served, rx, rxSzx, cbRet));
    } else if i < |s.reqs| {
      assert s.reqs == s.reqs[i := s.reqs[i]];
    }
  }

  // ---------------------------------------------------------------- which block is handed over

  /** A response with a Block2 option is handed to the callback of a plain request as a success exactly
      when it is one, its option can be applied, and it starts afresh (block 0) or does not lie before
      the offset asked for. The callback gets the offset of the response, whatever was asked for: it is
      the one asked for if and only if the response's is. */
  lemma BlockIsServedExactlyWhen(req: Req, rx: Rx, b: Block2, rxSzx: nat, cbRet: int)
    requires !req.isObserve && rx.block2 == Some(b)
    ensures var rsp := Handle(req, rx, rxSzx, cbRet).rsp;
            && (rsp.Some? && rsp.value.status.OK? <==>
                  && rx.code / 32 == 2 && b.update.Some? && b.next >= 0
                  && (b.first || req.block.current <= b.update.value.0))
            && (rsp.Some? && rsp.value.status.OK? ==>
                  && rsp.value.data == rx.payload && rsp.value.code == rx.code
                  && rsp.value.off == b.update.value.0 && rsp.value.total == b.update.value.1
                  && (rsp.value.isLast <==> b.next == 0))
  {
  }

  /** A well-formed successful response with block `d` of a transfer in blocks of `size` bytes. */
  predicate CarriesBlock(rx: Rx, d: nat, size: nat) {
    && rx.code / 32 == 2 && rx.observe.None? && rx.block2.Some?
    && var b := rx.block2.value;
       && b.update.Some? && b.update.value.0 == d * size
       && (b.first <==> d == 0) && b.next >= 0
  }

  /** The outstanding request for block `idx` of such a transfer. */
  predicate AsksForBlock(req: Req, idx: nat, size: nat) {
    !req.isObserve && req.block.current == idx * size
  }

  lemma EarlierBlock(size: nat, a: nat, b: nat)
    requires size > 0 && a < b
    ensures a * size < b * size
  {
    var beyond := b - a - 1;
    assert b * size == a * size + size + beyond * size;
    assert beyond * size >= 0;
  }

  lemma BlockOffsets(size: nat, idx: nat, d: nat)
    requires size > 0
    ensures idx * size <= d * size <==> idx <= d
    ensures idx * size == d * size <==> idx == d
  {
    if idx < d {
      EarlierBlock(size, idx, d);
    } else if d < idx {
      EarlierBlock(size, d, idx);
    }
  }

  /** While block `idx` is asked for, a response with block `d` that matches the request ends it with a
      success exactly when `d` is deliverable; otherwise it is ignored and the request stays. */
  lemma BlockIsServedExactlyWhenDeliverable(s: Engine, rx: Rx, uptime: int, rxSzx: nat, cbRet: int,
                                            idx: nat, d: nat, size: nat)
    requires FirstMatch(s.reqs, rx) < |s.reqs| && size > 0
    requires AsksForBlock(s.reqs[FirstMatch(s.reqs, rx)], idx, size) && CarriesBlock(rx, d, size)
    ensures var i := FirstMatch(s.reqs, rx);
            var t := Receive(s, rx, uptime, rxSzx, cbRet);
            if BlockDownload.Deliverable(idx, d) then
              && t.reqs == RemoveAt(s.reqs, i) && |t.log| == |s.log| + 2 && s.log <= t.log
              && IsCall(t.log[|s.log|], s.reqs[i].id)
              && var rsp := t.log[|s.log|].rsp;
                 && rsp.status.OK? && rsp.data == rx.payload && rsp.off == d * size
                 && (rsp.off == idx * size <==> d == idx)
                 && (rsp.isLast <==> rx.block2.value.next == 0)
            else
              && t.log == s.log && |t.reqs| == |s.reqs| && t.reqs == s.reqs[i := t.reqs[i]]
              && AsksForBlock(t.reqs[i], idx, size) && t.reqs[i].id == s.reqs[i].id
              && t.reqs[i].token == s.reqs[i].token
  {
    var i := FirstMatch(s.reqs, rx);
    BlockOffsets(size, idx, d);
    BlockIsServedExactlyWhen(s.reqs[i], rx, rx.block2.value, rxSzx, cbRet);
    assert d == 0 ==> d * size == 0;
  }

  /** A transfer whose blocks share one token, which no other request carries: the request for block
      `idx` is answered with a repeated block 0, the callback asks for the next block, and the answer
      that was meant for the first request is then ignored, so block `idx` is never handed over. */
  lemma RepeatedBlockZeroIsServed(s: Engine, repeated: Rx, late: Rx, uptime: int, rxSzx: nat, cbRet: int,
                                  idx: nat, size: nat, mid: nat, msg: MsgRef, now: int)
    requires s.connected && |s.reqs| == 1 && size > 0 && idx > 0
    requires AsksForBlock(s.reqs[0], idx, size) && |s.reqs[0].token| == TOKEN_LEN
    requires repeated.token == late.token == s.reqs[0].token
    requires CarriesBlock(repeated, 0, size) && CarriesBlock(late, idx, size)
    ensures var t := Receive(s, repeated, uptime, rxSzx, cbRet);
            var block := BlockCtx((idx + 1) * size, rxSzx, 0);
            var u := Submit(t, s.reqs[0].token, mid, false, msg, block, 0, now).1;
            var v := Receive(u, late, uptime, rxSzx, cbRet);
            && t.reqs == [] && |t.log| == |s.log| + 2
            && IsCall(t.log[|s.log|], s.reqs[0].id)
            && t.log[|s.log|].rsp.status.OK? && t.log[|s.log|].rsp.data == repeated.payload
            && v.log == u.log && |v.reqs| == 1 && AsksForBlock(v.reqs[0], idx + 1, size)
  {
    BlockIsServedExactlyWhenDeliverable(s, repeated, uptime, rxSzx, cbRet, idx, 0, size);
    var t := Receive(s, repeated, uptime, rxSzx, cbRet);
    var block := BlockCtx((idx + 1) * size, rxSzx, 0);
    var u := Submit(t, s.reqs[0].token, mid, false, msg, block, 0, now).1;
    assert FirstMatch(u.reqs, late) == 0;
    BlockIsServedExactlyWhenDeliverable(u, late, uptime, rxSzx, cbRet, idx + 1, idx, size);
  }

  // ---------------------------------------------------------------- timing of the whole list

  /** Every request that is not an idle observation is in one of the transmission periods of a request
      scheduled at `born[id]` with initial timeout `ack(id)`. */
  ghost predicate Timed(reqs: seq<Req>, born: seq<nat>, ack: nat -> Retransmission.AckTimeout) {
    forall i :: 0 <= i < |reqs| && !IsIdle(reqs[i]) ==> InSomePeriod(reqs[i], born, ack)
  }

  ghost predicate InSomePeriod(req: Req, born: seq<nat>, ack: nat -> Retransmission.AckTimeout) {
    && req.id < |born|
    && exists n :: 0 <= n <= 4 && req.pending == Retransmission.StateAt(born[req.id], ack(req.id), n)
  }

  /** The polls of a list come less than half the clock's range after its requests were scheduled. */
  ghost predicate InRange(reqs: seq<Req>, born: seq<nat>, now: nat) {
    forall i :: 0 <= i < |reqs| && !IsIdle(reqs[i]) && reqs[i].id < |born| ==>
                  born[reqs[i].id] <= now < born[reqs[i].id] + TWO31
  }

  ghost predicate Expires(req: Req, born: seq<nat>, ack: nat -> Retransmission.AckTimeout, now: nat) {
    !IsIdle(req) && req.id < |born| && now >= born[req.id] + 15 * ack(req.id)
  }

  lemma PollOneTimed(req: Req, born: seq<nat>, ack: nat -> Retransmission.AckTimeout, now: nat)
    requires InSomePeriod(req, born, ack) && born[req.id] <= now < born[req.id] + TWO31
    ensures var kept := PollOne(req, now, ack(req.id)).0;
            && (kept.None? <==> now >= born[req.id] + 15 * ack(req.id))
            && (kept.Some? ==> InSomePeriod(kept.value, born, ack) && kept.value.id == req.id
                               && IsIdle(kept.value) == IsIdle(req))
  {
    var n :| 0 <= n <= 4 && req.pending == Retransmission.StateAt(born[req.id], ack(req.id), n);
    Retransmission.PollClosedForm(born[req.id], ack(req.id), n, now);
    var level := Retransmission.Level(now - born[req.id], ack(req.id));
    var kept := PollOne(req, now, ack(req.id)).0;
    if kept.Some? {
      var m := if n < level then level else n;
      assert kept.value.pending == Retransmission.StateAt(born[req.id], ack(req.id), m);
    } else {
      assert level == 5;
    }
    if now >= born[req.id] + 15 * ack(req.id) {
      assert level == 5;
    }
  }

  /** Some request with this id stays. */
  ghost predicate Stays(reqs: seq<Req>, born: seq<nat>, ack: nat -> Retransmission.AckTimeout, now: nat, id: nat) {
    exists i :: 0 <= i < |reqs| && reqs[i].id == id && !Expires(reqs[i], born, ack, now)
  }

  lemma StaysCons(r: Req, rest: seq<Req>, born: seq<nat>, ack: nat -> Retransmission.AckTimeout, now: nat, id: nat)
    ensures Stays([r] + rest, born, ack, now, id)
            <==> (r.id == id && !Expires(r, born, ack, now)) || Stays(rest, born, ack, now, id)
  {
    var all := [r] + rest;
    assert all[0] == r;
    if Stays(rest, born, ack, now, id) {
      var i :| 0 <= i < |rest| && rest[i].id == id && !Expires(rest[i], born, ack, now);
      assert all[i + 1] == rest[i];
    }
    if Stays(all, born, ack, now, id) {
      var i :| 0 <= i < |all| && all[i].id == id && !Expires(all[i], born, ack, now);
      assert i > 0 ==> all[i] == rest[i - 1];
    }
  }

  lemma TimedCons(r: Req, rest: seq<Req>, born: seq<nat>, ack: nat -> Retransmission.AckTimeout)
    requires Timed(rest, born, ack) && (IsIdle(r) || InSomePeriod(r, born, ack))
    ensures Timed([r] + rest, born, ack)
  {
  }

  /** One poll of the list drops exactly the requests whose fifteen timeouts are over, and leaves all
      others in one of their periods. */
  lemma {:induction false} PollDropsExactlyOverdue(reqs: seq<Req>, born: seq<nat>,
                                                   ack: nat -> Retransmission.AckTimeout, now: nat, id: nat)
    requires Timed(reqs, born, ack) && InRange(reqs, born, now)
    ensures var after := PollList(reqs, now, ack).0;
            Timed(after, born, ack) && (Live(after, id) <==> Stays(reqs, born, ack, now, id))
  {
    if reqs != [] {
      var head, tail := reqs[0], reqs[1..];
      assert reqs == [head] + tail;
      PollDropsExactlyOverdue(tail, born, ack, now, id);
      StaysCons(head, tail, born, ack, now, id);
      var rest := PollList(tail, now, ack).0;
      if IsIdle(head) {
        TimedCons(head, rest, born, ack);
        LiveCons(head, rest, id);
      } else {
        PollOneTimed(head, born, ack, now);
        var kept := PollOne(head, now, ack(head.id)).0;
        if kept.Some? {
          TimedCons(kept.value, rest, born, ack);
          LiveCons(kept.value, rest, id);
        } else {
          assert [] + rest == rest;
        }
      }
    }
  }
}
