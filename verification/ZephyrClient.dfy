/** The client as the C code keeps it: request objects updated in place, a list they are removed from
    while it is walked, and an array of observation slots. Every method is proved to do what the
    functions of the modules CoapRequests and CoapClient say. */
module ZephyrClient {
  import opened Basics
  import opened Machine32
  import opened CoapRequests
  import opened CoapClient
  import Retransmission
  import ObserveOrder

  /** `struct golioth_coap_req`. */
  class CoapReq {
    const ident: nat
    const token: Token
    const mid: nat
    const isObserve: bool
    const msg: MsgRef
    var isPending: bool
    var pending: Retransmission.Pending
    var reply: ObserveOrder.Reply
    var block: BlockCtx
    var postSzx: nat

    ghost function View(): Req
      reads this
    {
      Req(ident, token, mid, isObserve, isPending, msg, pending, reply, block, postSzx)
    }

    constructor (key: nat, t: Token, m: nat, observe: bool, ref: MsgRef, ctx: BlockCtx, szx: nat, now: int)
      ensures View() == NewReq(key, t, m, observe, ref, ctx, szx, now)
    {
      ident, token, mid, isObserve, msg := key, t, m, observe, ref;
      isPending, block, postSzx := observe, ctx, szx;
      pending := Retransmission.InitPending(U32(now));
      reply := ObserveOrder.INITIAL_REPLY;
    }

    /** `golioth_coap_pending_cycle`. */
    method PendingCycle(ack: Retransmission.AckTimeout) returns (again: bool)
      modifies this`pending
      ensures var next := Retransmission.Cycle(old(pending), ack);
              (again <==> next.Some?) && pending == if again then next.value else old(pending)
    {
      if pending.timeout == 0 {
        pending := pending.(timeout := ack);
        return true;
      }
      if pending.retries == 0 {
        return false;
      }
      pending := pending.(t0 := U32(pending.t0 + pending.timeout));
      pending := pending.(timeout := U32(pending.timeout * 2));
      pending := pending.(retries := pending.retries - 1);
      return true;
    }

    /** The loop of `golioth_coap_req_poll_prepare`. */
    method WaitOrCycle(now: int, ack: Retransmission.AckTimeout) returns (expired: bool, timeout: int, send: bool)
      modifies this`pending
      ensures match Retransmission.Poll(old(pending), ack, U32(now))
              case Expired => expired
              case Waiting(p, left, sent) => !expired && pending == p && timeout == left && send == sent
    {
      ghost var first := Retransmission.Poll(pending, ack, U32(now));
      send := false;
      while true
        invariant match Retransmission.Poll(pending, ack, U32(now))
                  case Expired => first.Expired?
                  case Waiting(p, left, sent) => first == Retransmission.Waiting(p, left, send || sent)
        decreases pending.retries, if pending.timeout == 0 then 1 else 0
      {
        timeout := I32(I32(U32(pending.t0 + pending.timeout)) - I32(U32(now)));
        if timeout > 0 {
          return false, timeout, send;
        }
        send := PendingCycle(ack);
        if !send {
          return true, INT64_MAX, send;
        }
      }
    }

    ghost function TimeoutEvents(): seq<Event>
      reads this
    {
      [Called(ident, Rsp(TIMEOUT, 0, [], 0, 0, false, postSzx)), Freed(ident)]
    }

    /** `golioth_coap_req_poll_prepare`, as far as the request itself is concerned. */
    method PollInPlace(now: int, ack: Retransmission.AckTimeout) returns (expired: bool, timeout: int, send: bool)
      modifies this`pending
      ensures var one := PollOne(old(View()), now, ack);
              && (expired <==> one.0.None?) && timeout == one.2
              && one.1 == (if expired then TimeoutEvents() else if send then [Sent(ident)] else [])
              && (!expired ==> View() == one.0.value)
    {
      expired, timeout, send := WaitOrCycle(now, ack);
      if expired {
        timeout := INT64_MAX;
      }
    }

    /** The label `cancel_and_free`: whether the request stays. */
    method Concluding(error: bool) returns (keep: bool)
      modifies this`isPending
      ensures keep <==> isObserve && !error
      ensures View() == if keep then old(View()).(isPending := false) else old(View())
    {
      keep := isObserve && !error;
      if keep {
        isPending := false;
      }
    }

    /** The branches of `golioth_coap_req_reply_handler`; `cbRet` is what the callback returns. */
    method HandleInPlace(rx: Rx, rxSzx: nat, cbRet: int) returns (rsp: Option<Rsp>, keep: bool)
      modifies this
      ensures var h := Handle(old(View()), rx, rxSzx, cbRet);
              rsp == h.rsp && (keep <==> h.kept.Some?) && (keep ==> View() == h.kept.value)
    {
      if rx.code / 32 != 2 {
        rsp := Some(Rsp(COAP_RESPONSE, rx.code, [], 0, 0, false, postSzx));
        keep := Concluding(false);
      } else if rx.block2.Some? {
        rsp, keep := HandleBlock2InPlace(rx, rx.block2.value, rxSzx, cbRet);
      } else {
        if rx.block1.Some? {
          block := block.(szx := rx.block1.value);
          if block.szx < postSzx {
            postSzx := block.szx;
          }
        }
        rsp := Some(Rsp(OK, rx.code, rx.payload, 0, |rx.payload|, true, postSzx));
        keep := Concluding(false);
      }
    }

    /** The branch of a response with a Block2 option. */
    method HandleBlock2InPlace(rx: Rx, b: Block2, rxSzx: nat, cbRet: int) returns (rsp: Option<Rsp>, keep: bool)
      modifies this
      ensures var h := HandleBlock2(old(View()), rx, b, rxSzx, cbRet);
              rsp == h.rsp && (keep <==> h.kept.Some?) && (keep ==> View() == h.kept.value)
    {
      if b.first {
        block := BlockCtx(0, rxSzx, 0);
      }
      var want := block.current;
      if b.update.None? {
        rsp := Some(Rsp(FAIL, rx.code, [], 0, 0, false, postSzx));
        keep := Concluding(true);
        return;
      }
      block := block.(current := b.update.value.0, total := b.update.value.1);
      var current := block.current;
      if current < want {
        block := block.(current := want);
        return None, true;
      }
      if b.next < 0 {
        rsp := Some(Rsp(FAIL, rx.code, [], 0, 0, false, postSzx));
        keep := Concluding(true);
      } else if b.next == 0 {
        rsp := Some(Rsp(OK, rx.code, rx.payload, current, block.total, true, postSzx));
        keep := Concluding(false);
      } else {
        var status := if isObserve then FAIL else OK;
        rsp := Some(Rsp(status, rx.code, rx.payload, current, block.total, false, postSzx));
        keep := Concluding(cbRet != 0 || isObserve);
      }
    }
  }

  /** The values of a list of requests. */
  ghost function ViewsOf(reqs: seq<CoapReq>): (views: seq<Req>)
    reads reqs
    ensures |views| == |reqs| && forall i :: 0 <= i < |reqs| ==> views[i] == reqs[i].View()
  {
    seq(|reqs|, i requires 0 <= i < |reqs| reads reqs => reqs[i].View())
  }

  ghost predicate Distinct(reqs: seq<CoapReq>) {
    forall i, j :: 0 <= i < j < |reqs| ==> reqs[i] != reqs[j]
  }

  lemma ViewsOfAdd(reqs: seq<CoapReq>, r: CoapReq)
    ensures ViewsOf(reqs + [r]) == ViewsOf(reqs) + [r.View()]
  {
  }

  lemma DistinctAfterRemove(reqs: seq<CoapReq>, i: nat)
    requires i < |reqs| && Distinct(reqs)
    ensures Distinct(RemoveAt(reqs, i))
  {
  }

  lemma ViewsOfRemove(reqs: seq<CoapReq>, i: nat)
    requires i < |reqs|
    ensures ViewsOf(RemoveAt(reqs, i)) == RemoveAt(ViewsOf(reqs), i)
  {
    forall k | 0 <= k < |reqs| - 1
      ensures ViewsOf(RemoveAt(reqs, i))[k] == RemoveAt(ViewsOf(reqs), i)[k]
    {
      RemovedAt(reqs, i, k);
      RemovedAt(ViewsOf(reqs), i, k);
    }
  }

  lemma RemoveUpdated(views: seq<Req>, i: nat, v: Req)
    requires i < |views|
    ensures RemoveAt(views[i := v], i) == RemoveAt(views, i)
  {
  }

  /** `struct golioth_client`. */
  class GoliothClient {
    var connected: bool
    var reqs: seq<CoapReq>
    var slots: seq<Slot>
    const rxSzx: nat
    ghost var log: seq<Event>
    var scheduled: seq<bool>

    ghost function TheEngine(): Engine
      reads this, reqs
    {
      Engine(connected, ViewsOf(reqs), log, scheduled)
    }

    ghost function View(): Client
      reads this, reqs
    {
      Client(TheEngine(), slots)
    }

    constructor (numSlots: nat, szx: nat)
      ensures View() == Fresh(numSlots) && Distinct(reqs)
    {
      connected, reqs, log, scheduled, rxSzx := false, [], [], [], szx;
      slots := seq(numSlots, _ => Slot(false, [], ""));
    }

    twostate predicate OnlyFreshAdded()
      reads this
    {
      old(reqs) <= reqs && forall j :: |old(reqs)| <= j < |reqs| ==> fresh(reqs[j])
    }

    /** `sys_dlist_append`. */
    method Append(req: CoapReq)
      requires Distinct(reqs) && req !in reqs
      modifies this`reqs
      ensures reqs == old(reqs) + [req] && Distinct(reqs)
      ensures ViewsOf(reqs) == old(ViewsOf(reqs)) + [req.View()]
    {
      ViewsOfAdd(reqs, req);
      reqs := reqs + [req];
    }

    /** `golioth_coap_req_submit`, for a request that was just created. */
    method SubmitReq(token: Token, mid: nat, isObserve: bool, msg: MsgRef, block: BlockCtx, postSzx: nat, now: int)
        returns (ok: bool)
      requires Distinct(reqs)
      modifies this`reqs, this`scheduled
      ensures Distinct(reqs) && OnlyFreshAdded()
      ensures (ok, TheEngine()) == Submit(old(TheEngine()), token, mid, isObserve, msg, block, postSzx, now)
    {
      if !connected {
        return false;
      }
      var req := new CoapReq(|scheduled|, token, mid, isObserve, msg, block, postSzx, now);
      Append(req);
      scheduled := scheduled + [isObserve];
      return true;
    }

    /** `golioth_coap_req_cancel_and_free`. */
    method CancelAndFree(i: nat)
      requires i < |reqs| && Distinct(reqs)
      modifies this`reqs, this`log
      ensures reqs == RemoveAt(old(reqs), i) && Distinct(reqs)
      ensures log == old(log) + [Freed(old(reqs)[i].ident)]
      ensures ViewsOf(reqs) == RemoveAt(old(ViewsOf(reqs)), i)
    {
      ViewsOfRemove(reqs, i);
      DistinctAfterRemove(reqs, i);
      log := log + [Freed(reqs[i].ident)];
      reqs := RemoveAt(reqs, i);
    }

    /** A request updated in place. */
    twostate lemma OneUpdated(i: nat)
      requires reqs == old(reqs) && i < |reqs| && Distinct(reqs)
      requires forall j :: 0 <= j < |reqs| && j != i ==> reqs[j].View() == old(reqs[j].View())
      ensures ViewsOf(reqs) == old(ViewsOf(reqs))[i := reqs[i].View()]
    {
    }

    /** The callback, and the end of a request that does not stay. */
    method Settle(i: nat, rsp: Option<Rsp>, keep: bool)
      requires i < |reqs| && Distinct(reqs)
      modifies this`reqs, this`log
      ensures Distinct(reqs)
      ensures log == old(log) + Effects(old(reqs)[i].ident, rsp, keep)
      ensures ViewsOf(reqs) == if keep then old(ViewsOf(reqs)) else RemoveAt(old(ViewsOf(reqs)), i)
    {
      ghost var log0, id := log, reqs[i].ident;
      if rsp.Some? {
        log := log + [Called(reqs[i].ident, rsp.value)];
      }
      if !keep {
        CancelAndFree(i);
      }
      assert log == log0 + Effects(id, rsp, keep);
    }

    ghost function Effects(id: nat, rsp: Option<Rsp>, keep: bool): seq<Event> {
      (if rsp.Some? then [Called(id, rsp.value)] else []) + (if keep then [] else [Freed(id)])
    }

    /** `golioth_coap_req_reply_handler`: the callback, then the request stays or is freed. */
    method ReplyHandler(i: nat, rx: Rx, cbRet: int)
      requires i < |reqs| && Distinct(reqs)
      modifies this`reqs, this`log, reqs[i]
      ensures Distinct(reqs)
      ensures var h := Handle(old(reqs[i].View()), rx, rxSzx, cbRet);
              && log == old(log) + EventsOf(old(reqs[i]).ident, h)
              && ViewsOf(reqs) == Apply(old(ViewsOf(reqs)), i, h)
    {
      ghost var views := ViewsOf(reqs);
      ghost var h := Handle(reqs[i].View(), rx, rxSzx, cbRet);
      var rsp, keep := reqs[i].HandleInPlace(rx, rxSzx, cbRet);
      OneUpdated(i);
      ghost var updated := reqs[i].View();
      assert ViewsOf(reqs) == views[i := updated];
      assert Effects(reqs[i].ident, rsp, keep) == EventsOf(reqs[i].ident, h);
      RemoveUpdated(views, i, updated);
      Settle(i, rsp, keep);
    }

    /** The scan of `golioth_coap_req_process_rx`. */
    method FindMatch(rx: Rx) returns (i: nat)
      ensures i == FirstMatch(ViewsOf(reqs), rx)
    {
      ghost var views := ViewsOf(reqs);
      i := 0;
      while i < |reqs| && !MatchesInPlace(reqs[i], rx)
        invariant 0 <= i <= |reqs|
        invariant forall j :: 0 <= j < i ==> !Matches(views[j], rx)
      {
        assert views[i] == reqs[i].View();
        i := i + 1;
      }
      FirstMatchIs(views, rx, i);
    }

    /** The part of `golioth_coap_req_process_rx` for the request that matches. */
    method Serve(i: nat, rx: Rx, uptime: int, cbRet: int)
      requires i < |reqs| && Distinct(reqs)
      requires rx.observe.Some? ==> ObserveOrder.ReplyIsNewer(reqs[i].reply, rx.observe.value, uptime)
      modifies this`reqs, this`log, reqs[i]
      ensures Distinct(reqs)
      ensures var h := Handle(Noted(old(reqs[i].View()), rx, uptime), rx, rxSzx, cbRet);
              && log == old(log) + EventsOf(old(reqs[i]).ident, h)
              && ViewsOf(reqs) == Apply(old(ViewsOf(reqs)), i, h)
    {
      ghost var views := ViewsOf(reqs);
      if rx.observe.Some? {
        reqs[i].reply := ObserveOrder.Reply(rx.observe.value, uptime);
        OneUpdated(i);
      }
      ghost var served := reqs[i].View();
      assert ViewsOf(reqs) == views[i := served];
      ReplyHandler(i, rx, cbRet);
      ApplyUpdated(views, i, served, Handle(served, rx, rxSzx, cbRet));
    }

    /** `golioth_coap_req_process_rx`. */
    method ProcessRx(rx: Rx, uptime: int, cbRet: int)
      requires Distinct(reqs)
      modifies this`reqs, this`log, reqs
      ensures Distinct(reqs)
      ensures TheEngine() == Receive(old(TheEngine()), rx, uptime, rxSzx, cbRet)
    {
      var i := FindMatch(rx);
      if i == |reqs| {
        return;
      }
      if rx.observe.Some? && !ObserveOrder.ReplyIsNewer(reqs[i].reply, rx.observe.value, uptime) {
        return;
      }
      Serve(i, rx, uptime, cbRet);
    }

    function MatchesInPlace(req: CoapReq, rx: Rx): (b: bool)
      reads req
      ensures b == Matches(req.View(), rx)
    {
      && !(req.mid == 0 && |req.token| == 0)
      && !(req.mid != rx.mid && |rx.token| == 0)
      && (|rx.token| > 0 ==> |rx.token| <= |req.token| && req.token[..|rx.token|] == rx.token)
    }

    /** The branch of `golioth_coap_req_poll_prepare` for a request that was not replied to. */
    method GiveUp(i: nat)
      requires i < |reqs| && Distinct(reqs)
      modifies this`reqs, this`log
      ensures reqs == RemoveAt(old(reqs), i) && Distinct(reqs)
      ensures log == old(log) + old(reqs[i].TimeoutEvents())
      ensures ViewsOf(reqs) == RemoveAt(old(ViewsOf(reqs)), i)
    {
      var req := reqs[i];
      ghost var log0 := log;
      log := log + [Called(req.ident, Rsp(TIMEOUT, 0, [], 0, 0, false, req.postSzx))];
      CancelAndFree(i);
      assert log == log0 + req.TimeoutEvents();
    }

    /** The list after a poll of its i-th request. */
    ghost predicate Polled(views: seq<Req>, i: nat, kept: Option<Req>)
      requires i < |views|
      reads this, reqs
    {
      ViewsOf(reqs) == if kept.Some? then views[i := kept.value] else RemoveAt(views, i)
    }

    /** `golioth_coap_req_poll_prepare` for the request at position i. */
    method PollPrepare(i: nat, now: int, ack: Retransmission.AckTimeout) returns (timeout: int)
      requires i < |reqs| && Distinct(reqs)
      modifies this`reqs, this`log, reqs[i]
      ensures Distinct(reqs)
      ensures var one := PollOne(old(reqs[i].View()), now, ack);
              && timeout == one.2 && log == old(log) + one.1 && Polled(old(ViewsOf(reqs)), i, one.0)
              && reqs == if one.0.Some? then old(reqs) else RemoveAt(old(reqs), i)
    {
      ghost var views := ViewsOf(reqs);
      var expired, send;
      expired, timeout, send := PollUpdate(i, now, ack);
      RemoveUpdated(views, i, reqs[i].View());
      if expired {
        GiveUp(i);
      } else if send {
        log := log + [Sent(reqs[i].ident)];
      }
    }

    /** Its loop, which updates the request and nothing else. */
    method PollUpdate(i: nat, now: int, ack: Retransmission.AckTimeout)
        returns (expired: bool, timeout: int, send: bool)
      requires i < |reqs| && Distinct(reqs)
      modifies reqs[i]
      ensures var one := PollOne(old(reqs[i].View()), now, ack);
              && (expired <==> one.0.None?) && timeout == one.2
              && one.1 == (if expired then reqs[i].TimeoutEvents() else if send then [Sent(reqs[i].ident)] else [])
              && (!expired ==> reqs[i].View() == one.0.value)
      ensures ViewsOf(reqs) == old(ViewsOf(reqs))[i := reqs[i].View()]
    {
      expired, timeout, send := reqs[i].PollInPlace(now, ack);
      OneUpdated(i);
    }

    /** The same, with the list split where the walk stands. */
    method PollAt(i: nat, now: int, ack: Retransmission.AckTimeout, ghost done: seq<Req>, ghost todo: seq<Req>)
        returns (timeout: int, removed: bool)
      requires Distinct(reqs) && i == |done| && todo != [] && ViewsOf(reqs) == done + todo
      modifies this`reqs, this`log, reqs[i]
      ensures Distinct(reqs) && forall j :: 0 <= j < |reqs| ==> reqs[j] in old(reqs)
      ensures var one := PollOne(todo[0], now, ack);
              && timeout == one.2 && log == old(log) + one.1 && (removed <==> one.0.None?)
              && ViewsOf(reqs) == (if removed then done else done + [one.0.value]) + todo[1..]
    {
      var count := |reqs|;
      assert (done + todo)[i] == todo[0];
      SplitAt(done, todo);
      RemoveAtIsAmong(reqs, i);
      timeout := PollPrepare(i, now, ack);
      removed := |reqs| < count;
    }

    /** The walk stands before the k-th of the requests it started with; `done` are those kept. */
    ghost predicate Walking(views: seq<Req>, log0: seq<Event>, now: int, ack: nat -> Retransmission.AckTimeout,
                            k: nat, done: seq<Req>, least: int)
      reads this, reqs
    {
      && Distinct(reqs) && k <= |views| && ViewsOf(reqs) == done + views[k..]
      && log0 <= log && PollWalk(views, now, ack, k, done, log[|log0|..], least)
    }

    /** The body of the walk for a request that is not an idle observation. */
    method WalkOne(i: nat, now: int, ack: nat -> Retransmission.AckTimeout, least: int,
                   ghost views: seq<Req>, ghost log0: seq<Event>, ghost k: nat, ghost done: seq<Req>)
        returns (least': int, removed: bool)
      requires Walking(views, log0, now, ack, k, done, least) && i == |done| < |reqs|
      requires !(reqs[i].isObserve && !reqs[i].isPending)
      modifies this`reqs, this`log, reqs[i]
      ensures forall j :: 0 <= j < |reqs| ==> reqs[j] in old(reqs)
      ensures |reqs| == if removed then |old(reqs)| - 1 else |old(reqs)|
      ensures k < |views|
      ensures var kept := PollOne(views[k], now, ack(views[k].id)).0;
              (removed <==> kept.None?)
              && Walking(views, log0, now, ack, k + 1, if removed then done else done + [kept.value], least')
    {
      ghost var events := log[|log0|..];
      assert log == log0 + events;
      PollWalkStep(views, now, ack, k, done, events, least);
      HeadOfRest(done, views, k);
      ghost var one := PollOne(views[k], now, ack(views[k].id));
      Associative(log0, events, one.1);
      var timeout;
      timeout, removed := PollAt(i, now, ack(reqs[i].ident), done, views[k..]);
      least' := Min(least, timeout);
      assert log[|log0|..] == events + one.1;
    }

    /** The body of the loop: an idle observation is passed over, any other request polled. */
    method WalkStep(i: nat, now: int, ack: nat -> Retransmission.AckTimeout, least: int,
                    ghost views: seq<Req>, ghost log0: seq<Event>, ghost k: nat, ghost done: seq<Req>)
        returns (i': nat, least': int, ghost done': seq<Req>)
      requires Walking(views, log0, now, ack, k, done, least) && i == |done| < |reqs|
      modifies this`reqs, this`log, reqs[i]
      ensures forall j :: 0 <= j < |reqs| ==> reqs[j] in old(reqs)
      ensures |reqs| - i' == |old(reqs)| - i - 1 && i' == |done'|
      ensures Walking(views, log0, now, ack, k + 1, done', least')
    {
      if reqs[i].isObserve && !reqs[i].isPending {
        WalkIdle(i, now, ack, least, views, log0, k, done);
        return i + 1, least, done + [views[k]];
      }
      var removed;
      least', removed := WalkOne(i, now, ack, least, views, log0, k, done);
      i' := if removed then i else i + 1;
      done' := if removed then done else done + [PollOne(views[k], now, ack(views[k].id)).0.value];
    }

    lemma WalkStart(now: int, ack: nat -> Retransmission.AckTimeout)
      requires Distinct(reqs)
      ensures Walking(ViewsOf(reqs), log, now, ack, 0, [], INT64_MAX)
    {
      var views := ViewsOf(reqs);
      PollWalkStart(views, now, ack);
      assert [] + views[0..] == views && log[|log|..] == [];
    }

    lemma WalkEnd(views: seq<Req>, log0: seq<Event>, now: int, ack: nat -> Retransmission.AckTimeout,
                  k: nat, done: seq<Req>, least: int)
      requires Walking(views, log0, now, ack, k, done, least) && |reqs| <= |done|
      ensures PollList(views, now, ack) == (ViewsOf(reqs), log[|log0|..], least)
      ensures log == log0 + log[|log0|..]
    {
      PollWalkEnd(views, now, ack, k, done, log[|log0|..], least);
    }

    /** `__golioth_coap_reqs_poll_prepare`: the list is walked while requests are taken out of it. */
    method WalkAll(now: int, ack: nat -> Retransmission.AckTimeout) returns (least: int)
      requires Distinct(reqs)
      modifies this`reqs, this`log, reqs
      ensures exists k, done :: |reqs| <= |done| && Walking(old(ViewsOf(reqs)), old(log), now, ack, k, done, least)
    {
      ghost var views, log0 := ViewsOf(reqs), log;
      ghost var k: nat := 0;
      ghost var done: seq<Req> := [];
      least := INT64_MAX;
      var i: nat := 0;
      WalkStart(now, ack);
      while i < |reqs|
        invariant i == |done|
        invariant forall j :: 0 <= j < |reqs| ==> reqs[j] in old(reqs)
        invariant Walking(views, log0, now, ack, k, done, least)
        decreases |reqs| - i
      {
        i, least, done := WalkStep(i, now, ack, least, views, log0, k, done);
        k := k + 1;
      }
    }

    /** `golioth_coap_reqs_poll_prepare`. */
    method ReqsPollPrepare(now: int, ack: nat -> Retransmission.AckTimeout) returns (minTimeout: int)
      requires Distinct(reqs)
      modifies this`reqs, this`log, reqs
      ensures Distinct(reqs)
      ensures (TheEngine(), minTimeout) == PollAll(old(TheEngine()), now, ack)
    {
      ghost var s := TheEngine();
      minTimeout := WalkAll(now, ack);
      ghost var k, done :| |reqs| <= |done| && Walking(s.reqs, s.log, now, ack, k, done, minTimeout);
      WalkEnd(s.reqs, s.log, now, ack, k, done, minTimeout);
      PollAllIs(s, now, ack, ViewsOf(reqs), log[|s.log|..], minTimeout);
    }

    lemma WalkIdle(i: nat, now: int, ack: nat -> Retransmission.AckTimeout, least: int,
                   views: seq<Req>, log0: seq<Event>, k: nat, done: seq<Req>)
      requires Walking(views, log0, now, ack, k, done, least) && i == |done| < |reqs|
      requires reqs[i].isObserve && !reqs[i].isPending
      ensures k < |views| && Walking(views, log0, now, ack, k + 1, done + [views[k]], least)
    {
      HeadOfRest(done, views, k);
      assert ViewsOf(reqs)[i] == reqs[i].View() == views[k];
      PollWalkStep(views, now, ack, k, done, log[|log0|..], least);
    }

    /** `golioth_coap_reqs_cancel_all_with_reason`. */
    method CancelAllWithReason(reason: Status)
      requires Distinct(reqs)
      modifies this`reqs, this`log
      ensures reqs == [] && log == old(log) + CancelEvents(old(ViewsOf(reqs)), reason)
    {
      ghost var all := log + CancelEvents(ViewsOf(reqs), reason);
      while reqs != []
        invariant Distinct(reqs) && log + CancelEvents(ViewsOf(reqs), reason) == all
        decreases |reqs|
      {
        CancelHead(reason);
      }
      assert log + [] == log;
    }

    /** The body of the loop above, for the request at the front. */
    method CancelHead(reason: Status)
      requires Distinct(reqs) && reqs != []
      modifies this`reqs, this`log
      ensures Distinct(reqs) && reqs == old(reqs)[1..]
      ensures log + CancelEvents(ViewsOf(reqs), reason) == old(log + CancelEvents(ViewsOf(reqs), reason))
    {
      ghost var log0, views := log, ViewsOf(reqs);
      var req := reqs[0];
      if !req.isObserve {
        log := log + [Called(req.ident, Rsp(reason, 0, [], 0, 0, false, req.postSzx))];
      }
      CancelAndFree(0);
      assert RemoveAt(views, 0) == views[1..];
      CancelEventsHead(log0, views, reason);
    }

    /** `golioth_coap_reqs_on_disconnect`. */
    method OnDisconnect()
      requires Distinct(reqs)
      modifies this`connected, this`reqs, this`log
      ensures Distinct(reqs) && View() == Next(old(View()), Drop)
    {
      connected := false;
      CancelAllWithReason(FAIL);
    }

    /** The request at position i is released at the server and freed. */
    method Release(i: nat)
      requires i < |reqs| && Distinct(reqs)
      modifies this`reqs, this`log
      ensures Distinct(reqs)
      ensures log == old(log) + [Released(old(reqs)[i].token), Freed(old(reqs)[i].ident)]
      ensures ViewsOf(reqs) == RemoveAt(old(ViewsOf(reqs)), i)
    {
      ghost var log0, token, id := log, reqs[i].token, reqs[i].ident;
      log := log + [Released(reqs[i].token)];
      CancelAndFree(i);
      assert log == log0 + [Released(token), Freed(id)];
    }

    /** `golioth_coap_req_find_and_cancel_observation`. */
    method FindAndCancelObservation(msg: MsgRef)
      requires Distinct(reqs)
      modifies this`reqs, this`log
      ensures Distinct(reqs) && TheEngine() == CancelObservation(old(TheEngine()), msg)
    {
      var i := FindObserving(msg);
      if i < |reqs| {
        Release(i);
      }
    }

    /** Its search. */
    method FindObserving(msg: MsgRef) returns (i: nat)
      ensures i == FirstObserving(ViewsOf(reqs), msg)
    {
      ghost var views := ViewsOf(reqs);
      i := 0;
      while i < |reqs| && !(reqs[i].msg == msg && reqs[i].isObserve)
        invariant 0 <= i <= |reqs|
        invariant forall j :: 0 <= j < i ==> !Observes(views[j], msg)
      {
        assert views[i] == reqs[i].View();
        i := i + 1;
      }
      FirstObservingIs(views, msg, i);
    }

    /** `golioth_coap_observe` for the message in slot i. */
    method ObserveSlot(i: nat, token: Token, mid: nat, memory: bool, now: int) returns (ok: bool)
      requires Distinct(reqs)
      modifies this`reqs, this`scheduled
      ensures Distinct(reqs) && OnlyFreshAdded()
      ensures (ok, TheEngine()) == Observe(old(TheEngine()), token, i, mid, memory, now)
    {
      ok := false;
      if memory {
        ok := SubmitReq(token, mid, true, SlotMsg(i), NO_BLOCK, 0, now);
      }
    }

    /** `add_observation`: a slot is marked in use only when its request entered the list. */
    method AddObservationInPlace(token: Token, prefix: string, mid: nat, memory: bool, now: int)
      requires Distinct(reqs)
      modifies this
      ensures Distinct(reqs)
      ensures View() == AddObservation(old(View()), token, prefix, mid, memory, now)
    {
      var i := 0;
      while i < |slots| && slots[i].inUse
        invariant 0 <= i <= |slots|
        invariant forall j :: 0 <= j < i ==> slots[j].inUse
        modifies {}
      {
        i := i + 1;
      }
      FirstFreeIs(slots, i);
      if i == |slots| {
        return;
      }
      slots := slots[i := Slot(false, token, prefix)];
      var ok := ObserveSlot(i, token, mid, memory, now);
      if !ok {
        return;
      }
      slots := slots[i := slots[i].(inUse := true)];
    }

    /** The body of the loop below for a slot that matches. */
    method CancelSlotInPlace(i: nat)
      requires Distinct(reqs) && i < |slots|
      modifies this
      ensures Distinct(reqs) && View() == CancelSlot(old(View()), i)
    {
      FindAndCancelObservation(SlotMsg(i));
      slots := slots[i := slots[i].(inUse := false)];
    }

    /** `golioth_cancel_all_observations_by_prefix`, if nothing comes between. */
    method CancelAllObservationsByPrefix(prefix: Option<string>)
      requires Distinct(reqs)
      modifies this
      ensures Distinct(reqs) && View() == CancelFrom(old(View()), prefix, 0)
    {
      ghost var result := CancelFrom(View(), prefix, 0);
      var i := 0;
      while i < |slots|
        invariant 0 <= i <= |slots| && Distinct(reqs)
        invariant CancelFrom(View(), prefix, i) == result
        decreases |slots| - i
      {
        ghost var c := View();
        CancelFromUnfold(c, prefix, i);
        if slots[i].inUse && (prefix.None? || slots[i].prefix == prefix.value) {
          CancelSlotInPlace(i);
        }
        i := i + 1;
      }
    }

    /** `golioth_coap_reqs_on_connect` and `reestablish_observations`, if nothing comes between. */
    method ConnectAndReestablish(memory: nat -> bool, mid: nat -> nat, now: int)
      requires Distinct(reqs) && !connected
      modifies this
      ensures Distinct(reqs) && View() == Reconnected(old(View()), memory, mid, now)
    {
      connected := true;
      ghost var result := ReestablishFrom(TheEngine(), slots, 0, memory, mid, now);
      var i := 0;
      while i < |slots|
        invariant 0 <= i <= |slots| && Distinct(reqs) && slots == old(slots)
        invariant ReestablishFrom(TheEngine(), slots, i, memory, mid, now) == result
        decreases |slots| - i
      {
        if slots[i].inUse {
          var _ := ObserveSlot(i, slots[i].token, mid(i), memory(i), now);
        }
        i := i + 1;
      }
    }
  }

  lemma FirstMatchIs(reqs: seq<Req>, rx: Rx, i: nat)
    requires i <= |reqs| && (forall j :: 0 <= j < i ==> !Matches(reqs[j], rx))
    requires i < |reqs| ==> Matches(reqs[i], rx)
    ensures FirstMatch(reqs, rx) == i
  {
  }

  lemma FirstObservingIs(reqs: seq<Req>, msg: MsgRef, i: nat)
    requires i <= |reqs| && (forall j :: 0 <= j < i ==> !Observes(reqs[j], msg))
    requires i < |reqs| ==> Observes(reqs[i], msg)
    ensures FirstObserving(reqs, msg) == i
  {
  }

  lemma CancelFromUnfold(c: Client, prefix: Option<string>, i: nat)
    requires i < |c.slots|
    ensures CancelFrom(c, prefix, i) == CancelFrom(if InPrefix(c.slots[i], prefix) then CancelSlot(c, i) else c, prefix, i + 1)
  {
  }

  lemma FirstFreeIs(slots: seq<Slot>, i: nat)
    requires i <= |slots| && (forall j :: 0 <= j < i ==> slots[j].inUse)
    requires i < |slots| ==> !slots[i].inUse
    ensures FirstFree(slots) == i
  {
  }

  lemma CancelEventsHead(log: seq<Event>, views: seq<Req>, reason: Status)
    requires views != []
    ensures var head := views[0];
            log + CancelEvents(views, reason)
            == (if head.isObserve then log else log + [Called(head.id, FailedRsp(head, reason, 0))])
               + [Freed(head.id)] + CancelEvents(views[1..], reason)
  {
  }

  lemma ApplyUpdated(views: seq<Req>, i: nat, v: Req, h: Handled)
    requires i < |views|
    ensures Apply(views[i := v], i, h) == Apply(views, i, h)
  {
    RemoveUpdated(views, i, v);
  }

  /** A walk over the list has handled `k` of `views`: what is kept, what was logged and the least
      timeout so far complete to the result of the whole poll. */
  ghost predicate PollWalk(views: seq<Req>, now: int, ack: nat -> Retransmission.AckTimeout, k: nat,
                           done: seq<Req>, events: seq<Event>, least: int)
  {
    && k <= |views| && least <= INT64_MAX
    && var (rest, later, timeout) := PollList(views[k..], now, ack);
       PollList(views, now, ack) == (done + rest, events + later, Min(least, timeout))
  }

  lemma PollWalkStart(views: seq<Req>, now: int, ack: nat -> Retransmission.AckTimeout)
    ensures PollWalk(views, now, ack, 0, [], [], INT64_MAX)
  {
    assert views[0..] == views;
    PollDeadlines(views, now, ack);
    var (rest, later, timeout) := PollList(views, now, ack);
    assert [] + rest == rest && [] + later == later;
  }

  lemma PollWalkStep(views: seq<Req>, now: int, ack: nat -> Retransmission.AckTimeout, k: nat,
                     done: seq<Req>, events: seq<Event>, least: int)
    requires PollWalk(views, now, ack, k, done, events, least) && k < |views|
    ensures if IsIdle(views[k]) then PollWalk(views, now, ack, k + 1, done + [views[k]], events, least)
            else
              var (kept, first, timeout) := PollOne(views[k], now, ack(views[k].id));
              PollWalk(views, now, ack, k + 1, if kept.Some? then done + [kept.value] else done,
                       events + first, Min(least, timeout))
  {
    assert views[k..][0] == views[k] && views[k..][1..] == views[k + 1..];
    var (rest, later, timeout) := PollList(views[k + 1..], now, ack);
    if IsIdle(views[k]) {
      assert done + ([views[k]] + rest) == done + [views[k]] + rest;
    } else {
      var (kept, first, left) := PollOne(views[k], now, ack(views[k].id));
      assert events + (first + later) == events + first + later;
      if kept.Some? {
        assert done + ([kept.value] + rest) == done + [kept.value] + rest;
      } else {
        assert [] + rest == rest;
      }
    }
  }

  lemma PollWalkEnd(views: seq<Req>, now: int, ack: nat -> Retransmission.AckTimeout, k: nat,
                    done: seq<Req>, events: seq<Event>, least: int)
    requires PollWalk(views, now, ack, k, done, events, least)
    requires |done + views[k..]| <= |done|
    ensures PollList(views, now, ack) == (done, events, least) && done + views[k..] == done
  {
    assert views[k..] == [];
    assert done + [] == done && events + [] == events;
  }

  lemma PollAllIs(s: Engine, now: int, ack: nat -> Retransmission.AckTimeout, views: seq<Req>, events: seq<Event>, least: int)
    requires PollList(s.reqs, now, ack) == (views, events, least)
    ensures PollAll(s, now, ack) == (Engine(s.connected, views, s.log + events, s.scheduled), least)
  {
  }

  lemma SplitAt(done: seq<Req>, todo: seq<Req>)
    requires todo != []
    ensures RemoveAt(done + todo, |done|) == done + todo[1..]
    ensures forall r :: (done + todo)[|done| := r] == done + [r] + todo[1..]
  {
  }

  lemma RemoveAtIsAmong(reqs: seq<CoapReq>, i: nat)
    requires i < |reqs|
    ensures forall j :: 0 <= j < |reqs| - 1 ==> RemoveAt(reqs, i)[j] in reqs
  {
    forall j | 0 <= j < |reqs| - 1 ensures RemoveAt(reqs, i)[j] in reqs {
      assert RemoveAt(reqs, i)[j] == reqs[if j < i then j else j + 1];
    }
  }

  /** The request polled next is the head of what is left. */
  lemma HeadOfRest(done: seq<Req>, views: seq<Req>, k: nat)
    requires k <= |views| && |done + views[k..]| > |done|
    ensures k < |views| && views[k..] != [] && views[k..][0] == views[k] && views[k..][1..] == views[k + 1..]
    ensures (done + views[k..])[|done|] == views[k]
    ensures done + views[k..] == done + [views[k]] + views[k + 1..]
  {
  }
}
