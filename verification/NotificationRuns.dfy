/** Notifications over whole runs of the client: what a callback sees of what the server sent. One
    registration of an observation is one request, from the time it is scheduled until it leaves the list;
    when the client connects again, the observation's slot gets a new one, with a new reply state. */
module NotificationRuns {
  import opened Basics
  import opened CoapRequests
  import opened CoapClient
  import opened ObserveOrder
  import Retransmission

  /** The step brings a notification that is matched to request `id`. */
  predicate Notifies(c: Client, a: Action, id: nat) {
    && a.Response? && a.rx.observe.Some?
    && var i := FirstMatch(c.engine.reqs, a.rx);
       i < |c.engine.reqs| && c.engine.reqs[i].id == id
  }

  /** The step calls the callback of request `id`. */
  ghost predicate CallsBack(c: Client, a: Action, id: nat) {
    var log := Next(c, a).engine.log;
    |c.engine.log| <= |log| && Calls(log[|c.engine.log|..], id) > 0
  }

  /** `sent` gives, for each step, the server's own counter; the option carries its low 24 bits. */
  ghost predicate Numbered(c: Client, actions: seq<Action>, sent: seq<nat>, id: nat)
    decreases |actions|
  {
    && |sent| == |actions|
    && (actions == []
        || (&& (Notifies(c, actions[0], id) ==> actions[0].rx.observe.value == sent[0] % SEQ_MODULUS)
            && Numbered(Next(c, actions[0]), actions[1..], sent[1..], id)))
  }

  /** The notifications that arrive for request `id` in a run. */
  ghost function Arrivals(c: Client, actions: seq<Action>, sent: seq<nat>, id: nat): seq<Delivery>
    requires |sent| == |actions|
    decreases |actions|
  {
    if actions == [] then []
    else
      var rest := Arrivals(Next(c, actions[0]), actions[1..], sent[1..], id);
      if Notifies(c, actions[0], id) then [Delivery(sent[0], actions[0].uptime)] + rest else rest
  }

  /** Which of them reach the callback; the first to arrive has index `i`. */
  ghost function Served(c: Client, actions: seq<Action>, id: nat, i: nat): seq<nat>
    decreases |actions|
  {
    if actions == [] then []
    else
      var next := Next(c, actions[0]);
      if !Notifies(c, actions[0], id) then Served(next, actions[1..], id, i)
      else if CallsBack(c, actions[0], id) then [i] + Served(next, actions[1..], id, i + 1)
      else Served(next, actions[1..], id, i + 1)
  }

  /** Notifications without a Block2 option, of whatever code; observing in blocks is not supported. */
  ghost predicate AllPlain(c: Client, actions: seq<Action>, id: nat)
    decreases |actions|
  {
    actions == []
    || (&& (Notifies(c, actions[0], id) ==> actions[0].rx.block2.None?)
        && AllPlain(Next(c, actions[0]), actions[1..], id))
  }

  // ---------------------------------------------------------------- the reply state of one request

  /** The request `id`, if it is live, has this reply state. */
  ghost predicate RepliesLike(reqs: seq<Req>, id: nat, r: Reply) {
    forall j :: 0 <= j < |reqs| && reqs[j].id == id ==> reqs[j].reply == r
  }

  /** `r` is the reply state of request `id`, which may not have been scheduled yet. */
  ghost predicate HasReply(e: Engine, id: nat, r: Reply) {
    RepliesLike(e.reqs, id, r) && (id >= |e.scheduled| ==> r == INITIAL_REPLY)
  }

  lemma {:induction false} PollKeepsReply(reqs: seq<Req>, now: int, ack: nat -> Retransmission.AckTimeout,
                                          id: nat, r: Reply)
    requires RepliesLike(reqs, id, r)
    ensures RepliesLike(PollList(reqs, now, ack).0, id, r)
  {
    if reqs != [] {
      PollKeepsReply(reqs[1..], now, ack, id, r);
      assert reqs[0].id == id ==> reqs[0].reply == r;
    }
  }

  lemma RemoveKeepsReply(reqs: seq<Req>, i: nat, id: nat, r: Reply)
    requires RepliesLike(reqs, id, r) && i < |reqs|
    ensures RepliesLike(RemoveAt(reqs, i), id, r)
  {
    forall j | 0 <= j < |reqs| - 1 && RemoveAt(reqs, i)[j].id == id ensures RemoveAt(reqs, i)[j].reply == r {
      RemovedAt(reqs, i, j);
    }
  }

  lemma SubmitKeepsReply(e: Engine, token: Token, mid: nat, isObserve: bool, msg: MsgRef, block: BlockCtx,
                         postSzx: nat, now: int, id: nat, r: Reply)
    requires HasReply(e, id, r)
    ensures HasReply(Submit(e, token, mid, isObserve, msg, block, postSzx, now).1, id, r)
  {
  }

  /** A step that brings no notification for the request leaves its reply state alone. */
  lemma OtherStepKeepsReply(c: Client, a: Action, id: nat, r: Reply)
    requires HasReply(c.engine, id, r) && !Notifies(c, a, id)
    ensures HasReply(Next(c, a).engine, id, r)
  {
    match a
    case Request(token, mid, address, block, postSzx, now) =>
      SubmitKeepsReply(c.engine, token, mid, false, HeapMsg(address), block, postSzx, now, id, r);
    case AddObserve(token, prefix, mid, memory, now) =>
      SubmitKeepsReply(c.engine, token, mid, true, SlotMsg(FirstFree(c.slots)), NO_BLOCK, 0, now, id, r);
    case Response(rx, uptime, rxSzx, cbRet) => OtherResponseKeepsReply(c.engine, rx, uptime, rxSzx, cbRet, id, r);
    case PollStep(now, ack) => PollKeepsReply(c.engine.reqs, now, ack, id, r);
    case Establish(k, memory, mid, now) =>
      if k < |c.slots| {
        SubmitKeepsReply(c.engine, c.slots[k].token, mid, true, SlotMsg(k), NO_BLOCK, 0, now, id, r);
      }
    case Release(k) =>
      var i := FirstObserving(c.engine.reqs, SlotMsg(k));
      if i < |c.engine.reqs| {
        RemoveKeepsReply(c.engine.reqs, i, id, r);
      }
    case Clear(k) =>
    case Link =>
    case Drop =>
  }

  lemma OtherResponseKeepsReply(e: Engine, rx: Rx, uptime: int, rxSzx: nat, cbRet: int, id: nat, r: Reply)
    requires HasReply(e, id, r)
    requires var i := FirstMatch(e.reqs, rx); rx.observe.None? || i == |e.reqs| || e.reqs[i].id != id
    ensures HasReply(Receive(e, rx, uptime, rxSzx, cbRet), id, r)
  {
    var i := FirstMatch(e.reqs, rx);
    if i < |e.reqs| {
      ReplyAfterHandling(Noted(e.reqs[i], rx, uptime), rx, rxSzx, cbRet);
      RemoveKeepsReply(e.reqs, i, id, r);
    }
  }

  lemma ReplyAfterHandling(req: Req, rx: Rx, rxSzx: nat, cbRet: int)
    ensures var h := Handle(req, rx, rxSzx, cbRet);
            h.kept.Some? ==> h.kept.value.id == req.id && h.kept.value.reply == req.reply
  {
  }

  /** A notification for the request is accepted if it is newer than the reply state, and then becomes
      it; only an accepted one reaches the callback, and every plain one that is accepted does. */
  lemma NotificationStep(c: Client, a: Action, id: nat, r: Reply)
    requires Inv(c.engine) && HasReply(c.engine, id, r) && Notifies(c, a, id)
    ensures var accepted := ReplyIsNewer(r, a.rx.observe.value, a.uptime);
            && HasReply(Next(c, a).engine, id, if accepted then Reply(a.rx.observe.value, a.uptime) else r)
            && (CallsBack(c, a, id) ==> accepted)
            && (accepted && a.rx.block2.None? ==> CallsBack(c, a, id))
  {
    var e, i := c.engine, FirstMatch(c.engine.reqs, a.rx);
    var t := Next(c, a).engine;
    if ReplyIsNewer(r, a.rx.observe.value, a.uptime) {
      var served := Noted(e.reqs[i], a.rx, a.uptime);
      var h := Handle(served, a.rx, a.rxSzx, a.cbRet);
      ReplyAfterHandling(served, a.rx, a.rxSzx, a.cbRet);
      assert t.log[|e.log|..] == EventsOf(id, h);
      EventCounts(id, h, id);
      if h.kept.None? {
        forall j | 0 <= j < |t.reqs| ensures t.reqs[j].id != id {
          RemovedAt(e.reqs, i, j);
        }
      }
    } else {
      assert t == e && e.log[|e.log|..] == [];
    }
  }

  // ---------------------------------------------------------------- whole runs

  lemma ArrivalsFrom(c: Client, actions: seq<Action>, sent: seq<nat>, id: nat, all: seq<Delivery>, i: nat)
    requires actions != [] && |sent| == |actions| && i <= |all|
    requires all[i..] == Arrivals(c, actions, sent, id)
    ensures var rest := Arrivals(Next(c, actions[0]), actions[1..], sent[1..], id);
            if Notifies(c, actions[0], id)
            then i < |all| && all[i] == Delivery(sent[0], actions[0].uptime) && all[i + 1..] == rest
            else all[i..] == rest
  {
    if Notifies(c, actions[0], id) {
      assert all[i..][1..] == all[i + 1..] && all[i..][0] == all[i];
    }
  }

  /** Increasing counters, all larger than that of `last`. */
  ghost predicate IncreaseBeyond(all: seq<Delivery>, last: Option<nat>, acc: seq<nat>) {
    && IncreasingCounters(all, acc)
    && (last.Some? ==>
          last.value < |all| && forall k :: 0 <= k < |acc| ==> all[last.value].counter < all[acc[k]].counter)
  }

  lemma IncreaseFurther(all: seq<Delivery>, last: Option<nat>, i: nat, rest: seq<nat>)
    requires IncreaseBeyond(all, Some(i), rest)
    requires last.Some? ==> last.value < |all| && all[last.value].counter < all[i].counter
    ensures IncreaseBeyond(all, last, rest) && IncreaseBeyond(all, last, [i] + rest)
  {
    PrependAccepted(all, i, rest);
    var acc := [i] + rest;
    assert forall k :: 0 < k < |acc| ==> acc[k] == rest[k - 1];
  }

  /** The state between steps: `last` is the notification accepted last, if any. */
  lemma {:induction false} ServedIncreaseFrom(c: Client, actions: seq<Action>, sent: seq<nat>, id: nat,
                                              all: seq<Delivery>, i: nat, last: Option<nat>, r: Reply)
    requires Inv(c.engine) && KnownIds(c.engine) && HasReply(c.engine, id, r)
    requires Numbered(c, actions, sent, id) && BoundedReordering(all)
    requires i <= |all| && all[i..] == Arrivals(c, actions, sent, id)
    requires last.Some? ==> last.value < i && r == ReplyTo(all[last.value])
    ensures IncreaseBeyond(all, last, Served(c, actions, id, i))
    decreases |actions|
  {
    if actions != [] {
      var a, next := actions[0], Next(c, actions[0]);
      StepKeepsEngineInv(c, a);
      ArrivalsFrom(c, actions, sent, id, all, i);
      if !Notifies(c, a, id) {
        OtherStepKeepsReply(c, a, id, r);
        ServedIncreaseFrom(next, actions[1..], sent[1..], id, all, i, last, r);
      } else {
        NotificationStep(c, a, id, r);
        if ReplyIsNewer(r, a.rx.observe.value, a.uptime) {
          ServedIncreaseFrom(next, actions[1..], sent[1..], id, all, i + 1, Some(i), ReplyTo(all[i]));
          if last.Some? {
            AcceptedIsLarger(all, last.value, i);
          }
          IncreaseFurther(all, last, i, Served(next, actions[1..], id, i + 1));
        } else {
          ServedIncreaseFrom(next, actions[1..], sent[1..], id, all, i + 1, last, r);
        }
      }
    }
  }

  /** Over every run of the client, whatever else happens in it: the notifications handed to the
      callback for one registration strictly increase in the server's own counter, if the network delays
      no notification past half the number circle or 128 seconds. */
  lemma NotificationsIncrease(slots: nat, actions: seq<Action>, sent: seq<nat>, id: nat)
    requires Numbered(Fresh(slots), actions, sent, id)
    requires BoundedReordering(Arrivals(Fresh(slots), actions, sent, id))
    ensures IncreasingCounters(Arrivals(Fresh(slots), actions, sent, id), Served(Fresh(slots), actions, id, 0))
  {
    FreshEngineInv();
    var all := Arrivals(Fresh(slots), actions, sent, id);
    assert all[0..] == all;
    ServedIncreaseFrom(Fresh(slots), actions, sent, id, all, 0, None, INITIAL_REPLY);
  }

  /** Plain notifications are handed over exactly as the reordering rule accepts them. */
  lemma {:induction false} ServedIsAccepted(c: Client, actions: seq<Action>, sent: seq<nat>, id: nat,
                                            all: seq<Delivery>, i: nat, r: Reply)
    requires Inv(c.engine) && KnownIds(c.engine) && HasReply(c.engine, id, r)
    requires Numbered(c, actions, sent, id) && AllPlain(c, actions, id)
    requires i <= |all| && all[i..] == Arrivals(c, actions, sent, id)
    ensures Served(c, actions, id, i) == Accepted(r, all, i)
    decreases |actions|
  {
    if actions != [] {
      var a, next := actions[0], Next(c, actions[0]);
      StepKeepsEngineInv(c, a);
      ArrivalsFrom(c, actions, sent, id, all, i);
      if !Notifies(c, a, id) {
        OtherStepKeepsReply(c, a, id, r);
        ServedIsAccepted(next, actions[1..], sent[1..], id, all, i, r);
      } else {
        NotificationStep(c, a, id, r);
        var accepted := ReplyIsNewer(r, a.rx.observe.value, a.uptime);
        ServedIsAccepted(next, actions[1..], sent[1..], id, all, i + 1, if accepted then ReplyTo(all[i]) else r);
      }
    }
  }

  /** If gaps are bounded too, every plain notification reaches the callback if and only if it is
      newer than all that arrived for the same registration before. */
  lemma ExactlyTheFreshestAreServed(slots: nat, actions: seq<Action>, sent: seq<nat>, id: nat, i: nat)
    requires Numbered(Fresh(slots), actions, sent, id) && AllPlain(Fresh(slots), actions, id)
    requires Network(Arrivals(Fresh(slots), actions, sent, id))
    ensures i in Served(Fresh(slots), actions, id, 0) <==> IsFreshest(Arrivals(Fresh(slots), actions, sent, id), i)
  {
    FreshEngineInv();
    var all := Arrivals(Fresh(slots), actions, sent, id);
    assert all[0..] == all;
    ServedIsAccepted(Fresh(slots), actions, sent, id, all, 0, INITIAL_REPLY);
    AcceptedAreExactlyTheFreshest(all);
  }

  // ---------------------------------------------------------------- one slot, across registrations

  /** A notification handed to the callback: the registration it came for, and its counter. */
  datatype Notice = Notice(id: nat, counter: nat)

  /** The step brings a notification that is matched to a registration of slot k. */
  predicate NotifiesSlot(c: Client, a: Action, k: nat) {
    && a.Response? && a.rx.observe.Some?
    && var i := FirstMatch(c.engine.reqs, a.rx);
       i < |c.engine.reqs| && Observes(c.engine.reqs[i], SlotMsg(k))
  }

  function Notified(c: Client, a: Action, k: nat): nat
    requires NotifiesSlot(c, a, k)
  {
    c.engine.reqs[FirstMatch(c.engine.reqs, a.rx)].id
  }

  /** The step hands a notification to the callback of slot k. */
  ghost predicate NoticeHere(c: Client, a: Action, k: nat) {
    NotifiesSlot(c, a, k) && CallsBack(c, a, Notified(c, a, k))
  }

  /** What the callback of slot k is handed in a run. */
  ghost function SlotServed(c: Client, actions: seq<Action>, sent: seq<nat>, k: nat): seq<Notice>
    requires |sent| == |actions|
    decreases |actions|
  {
    if actions == [] then []
    else
      var rest := SlotServed(Next(c, actions[0]), actions[1..], sent[1..], k);
      if NoticeHere(c, actions[0], k) then [Notice(Notified(c, actions[0], k), sent[0])] + rest else rest
  }

  /** Every registration's notifications are numbered by the server and delayed only so much. */
  ghost predicate WellDelivered(c: Client, actions: seq<Action>, sent: seq<nat>) {
    && |sent| == |actions|
    && forall id: nat :: Numbered(c, actions, sent, id) && BoundedReordering(Arrivals(c, actions, sent, id))
  }

  ghost predicate Increasing(notices: seq<Notice>) {
    forall a, b :: 0 <= a < b < |notices| ==> notices[a].counter < notices[b].counter
  }

  /** Within one registration. */
  ghost predicate IncreasingWithin(notices: seq<Notice>) {
    forall a, b :: 0 <= a < b < |notices| && notices[a].id == notices[b].id ==> notices[a].counter < notices[b].counter
  }

  /** From one registration to the next. */
  ghost predicate IncreasingAcross(notices: seq<Notice>) {
    forall b :: 0 < b < |notices| && notices[b - 1].id != notices[b].id ==> notices[b - 1].counter < notices[b].counter
  }

  lemma {:induction false} NeighboursSuffice(notices: seq<Notice>, a: nat, b: nat)
    requires IncreasingWithin(notices) && IncreasingAcross(notices) && a < b < |notices|
    ensures notices[a].counter < notices[b].counter
    decreases b - a
  {
    assert notices[b - 1].counter < notices[b].counter;
    if a + 1 < b {
      NeighboursSuffice(notices, a, b - 1);
    }
  }

  lemma SomeReply(e: Engine, id: nat) returns (r: Reply)
    requires Inv(e)
    ensures HasReply(e, id, r)
  {
    if j :| 0 <= j < |e.reqs| && e.reqs[j].id == id {
      r := e.reqs[j].reply;
    } else {
      r := INITIAL_REPLY;
    }
  }

  lemma WellDeliveredNext(c: Client, actions: seq<Action>, sent: seq<nat>)
    requires WellDelivered(c, actions, sent) && actions != []
    ensures WellDelivered(Next(c, actions[0]), actions[1..], sent[1..])
  {
    var next := Next(c, actions[0]);
    forall id: nat
      ensures Numbered(next, actions[1..], sent[1..], id)
              && BoundedReordering(Arrivals(next, actions[1..], sent[1..], id))
    {
      var all, rest := Arrivals(c, actions, sent, id), Arrivals(next, actions[1..], sent[1..], id);
      assert Numbered(c, actions, sent, id) && BoundedReordering(all);
      assert Notifies(c, actions[0], id) ==> forall j :: 0 <= j < |rest| ==> rest[j] == all[j + 1];
    }
  }

  /** A notice of slot k is one of those served to its registration. */
  lemma {:induction false} NoticeIsServed(c: Client, actions: seq<Action>, sent: seq<nat>, k: nat, id: nat,
                                          all: seq<Delivery>, i: nat, b: nat)
    requires |sent| == |actions| && i <= |all| && all[i..] == Arrivals(c, actions, sent, id)
    requires b < |SlotServed(c, actions, sent, k)| && SlotServed(c, actions, sent, k)[b].id == id
    ensures exists x :: x in Served(c, actions, id, i) && x < |all|
                        && all[x].counter == SlotServed(c, actions, sent, k)[b].counter
    decreases |actions|
  {
    var a, next := actions[0], Next(c, actions[0]);
    ArrivalsFrom(c, actions, sent, id, all, i);
    var j := if Notifies(c, a, id) then i + 1 else i;
    if NoticeHere(c, a, k) && b == 0 {
      FirstIsServed(c, actions, sent, k, i);
    } else {
      var later := if NoticeHere(c, a, k) then b - 1 else b;
      LaterNotice(c, actions, sent, k, b);
      NoticeIsServed(next, actions[1..], sent[1..], k, id, all, j, later);
      var x :| x in Served(next, actions[1..], id, j) && x < |all|
               && all[x].counter == SlotServed(next, actions[1..], sent[1..], k)[later].counter;
      ServedLater(c, actions, id, i, x);
    }
  }

  lemma FirstIsServed(c: Client, actions: seq<Action>, sent: seq<nat>, k: nat, i: nat)
    requires |sent| == |actions| && actions != [] && NoticeHere(c, actions[0], k)
    ensures |SlotServed(c, actions, sent, k)| > 0
    ensures SlotServed(c, actions, sent, k)[0] == Notice(Notified(c, actions[0], k), sent[0])
    ensures i in Served(c, actions, Notified(c, actions[0], k), i)
  {
  }

  lemma LaterNotice(c: Client, actions: seq<Action>, sent: seq<nat>, k: nat, b: nat)
    requires |sent| == |actions| && actions != [] && b < |SlotServed(c, actions, sent, k)|
    ensures var rest := SlotServed(Next(c, actions[0]), actions[1..], sent[1..], k);
            if NoticeHere(c, actions[0], k)
            then b > 0 ==> b - 1 < |rest| && SlotServed(c, actions, sent, k)[b] == rest[b - 1]
            else b < |rest| && SlotServed(c, actions, sent, k)[b] == rest[b]
  {
  }

  lemma ServedLater(c: Client, actions: seq<Action>, id: nat, i: nat, x: nat)
    requires actions != []
    requires x in Served(Next(c, actions[0]), actions[1..], id, if Notifies(c, actions[0], id) then i + 1 else i)
    ensures x in Served(c, actions, id, i)
  {
  }

  /** The notices that follow one of the same registration have larger counters. */
  lemma FirstNoticeIsLeast(c: Client, actions: seq<Action>, sent: seq<nat>, k: nat, b: nat)
    requires Inv(c.engine) && KnownIds(c.engine) && actions != [] && WellDelivered(c, actions, sent)
    requires NoticeHere(c, actions[0], k)
    requires var rest := SlotServed(Next(c, actions[0]), actions[1..], sent[1..], k);
             b < |rest| && rest[b].id == Notified(c, actions[0], k)
    ensures sent[0] < SlotServed(Next(c, actions[0]), actions[1..], sent[1..], k)[b].counter
  {
    var a, next := actions[0], Next(c, actions[0]);
    var id := Notified(c, a, k);
    var all := Arrivals(c, actions, sent, id);
    assert all[0..] == all && Numbered(c, actions, sent, id);
    ArrivalsFrom(c, actions, sent, id, all, 0);
    var r := SomeReply(c.engine, id);
    NotificationStep(c, a, id, r);
    StepKeepsEngineInv(c, a);
    ServedIncreaseFrom(next, actions[1..], sent[1..], id, all, 1, Some(0), ReplyTo(all[0]));
    NoticeIsServed(next, actions[1..], sent[1..], k, id, all, 1, b);
    var served := Served(next, actions[1..], id, 1);
    var x :| x in served && x < |all| && all[x].counter == SlotServed(next, actions[1..], sent[1..], k)[b].counter;
    var y :| 0 <= y < |served| && served[y] == x;
  }

  lemma {:induction false} SlotServedWithin(c: Client, actions: seq<Action>, sent: seq<nat>, k: nat)
    requires Inv(c.engine) && KnownIds(c.engine) && WellDelivered(c, actions, sent)
    ensures IncreasingWithin(SlotServed(c, actions, sent, k))
    decreases |actions|
  {
    if actions != [] {
      var a, next := actions[0], Next(c, actions[0]);
      var rest := SlotServed(next, actions[1..], sent[1..], k);
      WellDeliveredNext(c, actions, sent);
      StepKeepsEngineInv(c, a);
      SlotServedWithin(next, actions[1..], sent[1..], k);
      if NoticeHere(c, a, k) {
        forall b | 0 <= b < |rest| && rest[b].id == Notified(c, a, k) ensures sent[0] < rest[b].counter {
          FirstNoticeIsLeast(c, actions, sent, k, b);
        }
        assert SlotServed(c, actions, sent, k) == [Notice(Notified(c, a, k), sent[0])] + rest;
      }
    }
  }

  /** Over every run, the notifications handed to the callback of one slot strictly increase if and only
      if the first one served after each new registration is newer than the last one served before. The
      client does nothing to ensure that. */
  lemma SlotIncreasesExactlyWhen(slots: nat, actions: seq<Action>, sent: seq<nat>, k: nat)
    requires WellDelivered(Fresh(slots), actions, sent)
    ensures var notices := SlotServed(Fresh(slots), actions, sent, k);
            Increasing(notices) <==> IncreasingAcross(notices)
  {
    var notices := SlotServed(Fresh(slots), actions, sent, k);
    FreshEngineInv();
    SlotServedWithin(Fresh(slots), actions, sent, k);
    if IncreasingAcross(notices) {
      forall a, b | 0 <= a < b < |notices| ensures notices[a].counter < notices[b].counter {
        NeighboursSuffice(notices, a, b);
      }
    }
  }

  /** A new registration serves the first plain notification it gets once the clock is past 0, whatever
      its number. */
  lemma NewRegistrationServesAnything(c: Client, a: Action, id: nat)
    requires Inv(c.engine) && Notifies(c, a, id) && HasReply(c.engine, id, INITIAL_REPLY)
    requires a.uptime > 0 && a.rx.block2.None?
    ensures CallsBack(c, a, id)
  {
    NotificationStep(c, a, id, INITIAL_REPLY);
  }

  lemma SlotServedCons(c: Client, a: Action, rest: seq<Action>, n: nat, sent: seq<nat>, k: nat)
    requires |sent| == |rest|
    ensures var later := SlotServed(Next(c, a), rest, sent, k);
            SlotServed(c, [a] + rest, [n] + sent, k)
            == if NoticeHere(c, a, k) then [Notice(Notified(c, a, k), n)] + later else later
  {
    assert ([a] + rest)[1..] == rest && ([n] + sent)[1..] == sent;
  }

  /** A plain notification of the only observation. */
  predicate PlainNotice(a: Action, token: Token, counter: nat) {
    && a.Response? && a.rx.token == token && a.rx.code / 32 == 2 && a.rx.block2.None?
    && a.rx.observe == Some(counter % SEQ_MODULUS) && a.uptime > 0
  }

  /** Slot 0 has the only request in the list, a registration that has accepted nothing yet. */
  ghost predicate JustRegistered(c: Client, token: Token, id: nat) {
    && Inv(c.engine) && KnownIds(c.engine) && c.engine.connected
    && |c.slots| == 1 && c.slots[0].inUse && c.slots[0].token == token
    && |c.engine.reqs| == 1 && |c.engine.scheduled| == id + 1
    && var req := c.engine.reqs[0];
       Observes(req, SlotMsg(0)) && req.id == id && req.token == token && req.reply == INITIAL_REPLY
  }

  lemma JustRegisteredServes(c: Client, a: Action, token: Token, id: nat, counter: nat)
    requires JustRegistered(c, token, id) && PlainNotice(a, token, counter) && |token| == TOKEN_LEN
    ensures NotifiesSlot(c, a, 0) && Notified(c, a, 0) == id && CallsBack(c, a, id)
    ensures Next(c, a).slots == c.slots && |Next(c, a).engine.scheduled| == id + 1
  {
    assert Matches(c.engine.reqs[0], a.rx);
    assert FirstMatch(c.engine.reqs, a.rx) == 0;
    NewRegistrationServesAnything(c, a, id);
  }

  lemma Reregisters(c: Client, token: Token, id: nat, mid: nat, now: int)
    requires Inv(c.engine) && KnownIds(c.engine) && |c.slots| == 1 && c.slots[0].inUse && c.slots[0].token == token
    requires |c.engine.scheduled| == id
    ensures JustRegistered(Next(Next(Next(c, Drop), Link), Establish(0, true, mid, now)), token, id)
  {
    var d := Next(c, Drop);
    var e := Next(d, Link);
    StepKeepsEngineInv(c, Drop);
    StepKeepsEngineInv(d, Link);
    StepKeepsEngineInv(e, Establish(0, true, mid, now));
  }

  /** Losing the connection, setting the observation up again, and a notification. */
  lemma ServedAfterReconnect(c: Client, token: Token, id: nat, mid: nat, now: int, older: Action, second: nat)
    requires Inv(c.engine) && KnownIds(c.engine) && |c.slots| == 1 && c.slots[0].inUse && c.slots[0].token == token
    requires |c.engine.scheduled| == id && |token| == TOKEN_LEN && PlainNotice(older, token, second)
    ensures SlotServed(c, [Drop, Link, Establish(0, true, mid, now), older], [0, 0, 0, second], 0) == [Notice(id, second)]
  {
    var again := Establish(0, true, mid, now);
    var d := Next(c, Drop);
    var e := Next(d, Link);
    var f := Next(e, again);
    Reregisters(c, token, id, mid, now);
    JustRegisteredServes(f, older, token, id, second);
    SlotServedCons(f, older, [], second, [], 0);
    SlotServedCons(e, again, [older], 0, [second], 0);
    SlotServedCons(d, Link, [again, older], 0, [0, second], 0);
    SlotServedCons(c, Drop, [Link, again, older], 0, [0, 0, second], 0);
    FourInRow(Drop, Link, again, older);
    FourInRow(0, 0, 0, second);
  }

  lemma FourInRow<T>(a: T, b: T, c: T, d: T)
    ensures [d] + [] == [d] && [c] + [d] == [c, d] && [b] + [c, d] == [b, c, d] && [a] + [b, c, d] == [a, b, c, d]
  {
  }

  /** A new client that connects and adds an observation. */
  lemma FirstRegistration(token: Token, prefix: string, mid: nat, now: int)
    requires |token| == TOKEN_LEN
    ensures JustRegistered(Next(Next(Fresh(1), Link), AddObserve(token, prefix, mid, true, now)), token, 0)
  {
    FreshEngineInv();
    var c := Next(Fresh(1), Link);
    StepKeepsEngineInv(Fresh(1), Link);
    StepKeepsEngineInv(c, AddObserve(token, prefix, mid, true, now));
  }

  /** A run in which the callback sees an older notification after a newer one, although the network
      delays neither for long: the connection is lost in between and the observation set up again. */
  lemma OlderAfterReconnect(token: Token, prefix: string, mid: nat, now: int, newer: Action, older: Action,
                            first: nat, second: nat)
    requires |token| == TOKEN_LEN && PlainNotice(newer, token, first) && PlainNotice(older, token, second)
    requires second < first
    requires BoundedReordering([Delivery(first, newer.uptime), Delivery(second, older.uptime)])
    ensures exists actions, sent :: |sent| == |actions|
              && SlotServed(Fresh(1), actions, sent, 0) == [Notice(0, first), Notice(1, second)]
              && !Increasing([Notice(0, first), Notice(1, second)])
  {
    var add := AddObserve(token, prefix, mid, true, now);
    var tail, sentTail := [Drop, Link, Establish(0, true, mid, now), older], [0, 0, 0, second];
    var c1 := Next(Fresh(1), Link);
    var c2 := Next(c1, add);
    FirstRegistration(token, prefix, mid, now);
    JustRegisteredServes(c2, newer, token, 0, first);
    StepKeepsEngineInv(c2, newer);
    ServedAfterReconnect(Next(c2, newer), token, 1, mid, now, older, second);
    SlotServedCons(c2, newer, tail, first, sentTail, 0);
    SlotServedCons(c1, add, [newer] + tail, 0, [first] + sentTail, 0);
    SlotServedCons(Fresh(1), Link, [add] + ([newer] + tail), 0, [0] + ([first] + sentTail), 0);
    var notices := [Notice(0, first)] + [Notice(1, second)];
    assert SlotServed(Fresh(1), [Link] + ([add] + ([newer] + tail)), [0] + ([0] + ([first] + sentTail)), 0) == notices;
    assert notices == [Notice(0, first), Notice(1, second)];
    assert notices[0].counter >= notices[1].counter;
  }
}
