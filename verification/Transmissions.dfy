/** When requests are transmitted, over the list and over whole runs of the client. */
module Transmissions {
  import opened Basics
  import opened Machine32
  import opened CoapRequests
  import opened CoapClient
  import Retransmission

  // ---------------------------------------------------------------- one poll of the list

  /** The number of transmission periods that have begun. */
  function Period(p: Retransmission.Pending): int {
    if p.timeout == 0 then 0 else 1 + Retransmission.MAX_RETRIES - p.retries
  }

  lemma PeriodOfState(s: nat, ack: Retransmission.AckTimeout, n: nat)
    requires n <= 4
    ensures Period(Retransmission.StateAt(s, ack, n)) == n
  {
    if n > 0 {
      assert ack * Pow2(n - 1) >= 1 by {
        assert ack * (Pow2(n - 1) - 1) >= 0;
        assert ack * Pow2(n - 1) == ack * (Pow2(n - 1) - 1) + ack;
      }
    }
  }

  /** A poll sends a request exactly when its age has brought it into a later period, tells it of its
      timeout exactly when its fifteen timeouts are over, and otherwise does nothing to it. */
  lemma PollSendsExactlyWhenDue(reqs: seq<Req>, born: seq<nat>, ack: nat -> Retransmission.AckTimeout, now: nat, i: nat)
    requires DistinctIds(reqs) && Timed(reqs, born, ack) && InRange(reqs, born, now)
    requires i < |reqs| && !IsIdle(reqs[i])
    ensures var req := reqs[i];
            && req.id < |born| && born[req.id] <= now
            && var level := Retransmission.Level(now - born[req.id], ack(req.id));
               About(PollList(reqs, now, ack).1, req.id)
               == if level == 5 then [Called(req.id, Bare(req, TIMEOUT, 0)), Freed(req.id)]
                  else if Period(req.pending) < level then [Sent(req.id)]
                  else []
  {
    var req := reqs[i];
    assert InSomePeriod(req, born, ack);
    var n :| 0 <= n <= 4 && req.pending == Retransmission.StateAt(born[req.id], ack(req.id), n);
    PeriodOfState(born[req.id], ack(req.id), n);
    Retransmission.PollClosedForm(born[req.id], ack(req.id), n, now);
    PollReaches(reqs, now, ack, i);
  }

  // ---------------------------------------------------------------- one request over a run

  /** The request is in the list and waits for an answer. */
  ghost predicate Active(c: Client, id: nat) {
    exists j :: 0 <= j < |c.engine.reqs| && c.engine.reqs[j].id == id && !IsIdle(c.engine.reqs[j])
  }

  ghost predicate Polled(c: Client, a: Action, id: nat) {
    a.PollStep? && Active(c, id)
  }

  /** What a step adds to the log. */
  function Added(c: Client, a: Action): seq<Event> {
    var log := Next(c, a).engine.log;
    if |c.engine.log| <= |log| then log[|c.engine.log|..] else []
  }

  /** Polls come at true times, and one timeout is drawn for the request. */
  ghost predicate PolledWith(actions: seq<Action>, id: nat, ack: Retransmission.AckTimeout) {
    forall k :: 0 <= k < |actions| && actions[k].PollStep? ==> actions[k].now >= 0 && actions[k].ack(id) == ack
  }

  /** The times at which the request is polled. */
  ghost function Polls(c: Client, actions: seq<Action>, id: nat): seq<nat>
    requires forall k :: 0 <= k < |actions| && actions[k].PollStep? ==> actions[k].now >= 0
    decreases |actions|
  {
    if actions == [] then []
    else
      var rest := Polls(Next(c, actions[0]), actions[1..], id);
      if Polled(c, actions[0], id) then [actions[0].now] + rest else rest
  }

  /** The polls, counted from `i`, at which it is sent. Any other step that sent it would show as well. */
  ghost function SentAt(c: Client, actions: seq<Action>, id: nat, i: nat): seq<nat>
    decreases |actions|
  {
    if actions == [] then []
    else
      var rest := SentAt(Next(c, actions[0]), actions[1..], id, if Polled(c, actions[0], id) then i + 1 else i);
      if Sent(id) in Added(c, actions[0]) then [i] + rest else rest
  }

  ghost predicate TimesOut(c: Client, a: Action, id: nat) {
    exists e :: e in Added(c, a) && e.Called? && e.id == id && e.rsp.status == TIMEOUT
  }

  /** The poll at which it is told of its timeout. */
  ghost function TimedOutAt(c: Client, actions: seq<Action>, id: nat, i: nat): Option<nat>
    decreases |actions|
  {
    if actions == [] then None
    else if TimesOut(c, actions[0], id) then Some(i)
    else TimedOutAt(Next(c, actions[0]), actions[1..], id, if Polled(c, actions[0], id) then i + 1 else i)
  }

  // ---------------------------------------------------------------- what the steps do to it

  ghost predicate InState(reqs: seq<Req>, id: nat, p: Option<Retransmission.Pending>) {
    forall j :: 0 <= j < |reqs| && reqs[j].id == id && !IsIdle(reqs[j]) ==> p == Some(reqs[j].pending)
  }

  /** The retransmission state of the request, as long as it waits for an answer. */
  ghost predicate Tracks(c: Client, id: nat, p: Option<Retransmission.Pending>) {
    id < |c.engine.scheduled| && InState(c.engine.reqs, id, p)
  }

  lemma RemoveTracks(reqs: seq<Req>, i: nat, id: nat, p: Option<Retransmission.Pending>)
    requires i < |reqs| && InState(reqs, id, p)
    ensures InState(RemoveAt(reqs, i), id, p)
  {
    forall j | 0 <= j < |reqs| - 1 && RemoveAt(reqs, i)[j].id == id && !IsIdle(RemoveAt(reqs, i)[j])
      ensures p == Some(RemoveAt(reqs, i)[j].pending)
    {
      RemovedAt(reqs, i, j);
    }
  }

  lemma HandledKeepsPending(req: Req, rx: Rx, rxSzx: nat, cbRet: int)
    ensures var h := Handle(req, rx, rxSzx, cbRet);
            && (h.kept.Some? ==> h.kept.value.id == req.id && h.kept.value.pending == req.pending
                                 && (IsIdle(req) ==> IsIdle(h.kept.value)))
            && (h.rsp.Some? ==> h.rsp.value.status != TIMEOUT)
  {
  }

  /** A step that is no poll sends nothing and makes nothing time out, and leaves the state alone. */
  lemma OtherStepTracks(c: Client, a: Action, id: nat, p: Option<Retransmission.Pending>)
    requires Tracks(c, id, p) && !a.PollStep?
    ensures Tracks(Next(c, a), id, p) && Sent(id) !in Added(c, a) && !TimesOut(c, a, id)
  {
    var e := c.engine;
    match a
    case Response(rx, uptime, rxSzx, cbRet) => ResponseTracks(c, a, id, p);
    case Release(k) =>
      CancelReleases(e, SlotMsg(k));
      var i := FirstObserving(e.reqs, SlotMsg(k));
      if i < |e.reqs| {
        RemoveTracks(e.reqs, i, id, p);
        assert Added(c, a) == [Released(e.reqs[i].token), Freed(e.reqs[i].id)];
      }
    case Drop =>
      assert Added(c, a) == CancelEvents(e.reqs, FAIL);
      CancelSendsNothing(e.reqs, FAIL, id);
    case _ =>
  }

  lemma {:induction false} CancelSendsNothing(reqs: seq<Req>, reason: Status, id: nat)
    requires reason != TIMEOUT
    ensures forall e :: e in CancelEvents(reqs, reason) ==> e != Sent(id) && (e.Called? ==> e.rsp.status != TIMEOUT)
  {
    if reqs != [] {
      CancelSendsNothing(reqs[1..], reason, id);
    }
  }

  lemma ResponseTracks(c: Client, a: Action, id: nat, p: Option<Retransmission.Pending>)
    requires Tracks(c, id, p) && a.Response?
    ensures Tracks(Next(c, a), id, p) && Sent(id) !in Added(c, a) && !TimesOut(c, a, id)
  {
    var e, i := c.engine, FirstMatch(c.engine.reqs, a.rx);
    if Next(c, a).engine != e {
      var h := Handle(Noted(e.reqs[i], a.rx, a.uptime), a.rx, a.rxSzx, a.cbRet);
      HandledKeepsPending(Noted(e.reqs[i], a.rx, a.uptime), a.rx, a.rxSzx, a.cbRet);
      ApplyTracks(e.reqs, i, h, id, p);
      assert Added(c, a) == EventsOf(e.reqs[i].id, h);
    }
  }

  lemma ApplyTracks(reqs: seq<Req>, i: nat, h: Handled, id: nat, p: Option<Retransmission.Pending>)
    requires InState(reqs, id, p) && i < |reqs|
    requires h.kept.Some? ==> h.kept.value.id == reqs[i].id && h.kept.value.pending == reqs[i].pending
                              && (IsIdle(reqs[i]) ==> IsIdle(h.kept.value))
    ensures InState(Apply(reqs, i, h), id, p)
  {
    RemoveTracks(reqs, i, id, p);
  }

  /** The state after a poll. */
  function StateAfter(p: Option<Retransmission.Pending>, ack: Retransmission.AckTimeout, now: int): Option<Retransmission.Pending> {
    match p
    case None => None
    case Some(q) =>
      match Retransmission.Poll(q, ack, U32(now))
      case Expired => None
      case Waiting(r, _, _) => Some(r)
  }

  lemma InStateCons(r: Req, rest: seq<Req>, id: nat, p: Option<Retransmission.Pending>)
    requires InState(rest, id, p) && (r.id == id && !IsIdle(r) ==> p == Some(r.pending))
    ensures InState([r] + rest, id, p)
  {
  }

  lemma {:induction false} PollListTracks(reqs: seq<Req>, now: int, ack: nat -> Retransmission.AckTimeout, id: nat,
                                          p: Option<Retransmission.Pending>)
    requires InState(reqs, id, p)
    ensures InState(PollList(reqs, now, ack).0, id, StateAfter(p, ack(id), now))
  {
    if reqs != [] {
      var head, rest := reqs[0], PollList(reqs[1..], now, ack).0;
      PollListTracks(reqs[1..], now, ack, id, p);
      if IsIdle(head) {
        InStateCons(head, rest, id, StateAfter(p, ack(id), now));
      } else {
        var kept := PollOne(head, now, ack(head.id)).0;
        if kept.Some? {
          InStateCons(kept.value, rest, id, StateAfter(p, ack(id), now));
        } else {
          assert [] + rest == rest;
        }
      }
    }
  }

  lemma {:induction false} InAbout(log: seq<Event>, e: Event, id: nat)
    requires Concerns(e, id)
    ensures e in log <==> e in About(log, id)
  {
    if log != [] {
      InAbout(log[1..], e, id);
    }
  }

  /** What a step's events for the request say of it. */
  lemma AboutDecides(c: Client, a: Action, id: nat, about: seq<Event>)
    requires About(Added(c, a), id) == about
    ensures Sent(id) in Added(c, a) <==> Sent(id) in about
    ensures TimesOut(c, a, id) <==> exists e :: e in about && e.Called? && e.id == id && e.rsp.status == TIMEOUT
  {
    InAbout(Added(c, a), Sent(id), id);
    if TimesOut(c, a, id) {
      var e :| e in Added(c, a) && e.Called? && e.id == id && e.rsp.status == TIMEOUT;
      InAbout(Added(c, a), e, id);
    }
    if exists e :: e in about && e.Called? && e.id == id && e.rsp.status == TIMEOUT {
      var e :| e in about && e.Called? && e.id == id && e.rsp.status == TIMEOUT;
      InAbout(Added(c, a), e, id);
    }
  }

  /** A poll that finds the request waiting for an answer. */
  lemma PolledTracks(c: Client, a: Action, id: nat, p: Retransmission.Pending)
    requires Tracks(c, id, Some(p)) && Polled(c, a, id) && Inv(c.engine)
    ensures var outcome := Retransmission.Poll(p, a.ack(id), U32(a.now));
            && Tracks(Next(c, a), id, StateAfter(Some(p), a.ack(id), a.now))
            && (Sent(id) in Added(c, a) <==> outcome.Waiting? && outcome.send)
            && (TimesOut(c, a, id) <==> outcome.Expired?)
  {
    var reqs := c.engine.reqs;
    assert Added(c, a) == PollList(reqs, a.now, a.ack).1;
    var j :| 0 <= j < |reqs| && reqs[j].id == id && !IsIdle(reqs[j]);
    PollListTracks(reqs, a.now, a.ack, id, Some(p));
    PolledSays(c, a, j);
  }

  lemma PolledSays(c: Client, a: Action, j: nat)
    requires a.PollStep? && Inv(c.engine) && j < |c.engine.reqs| && !IsIdle(c.engine.reqs[j])
    ensures var req := c.engine.reqs[j];
            var outcome := Retransmission.Poll(req.pending, a.ack(req.id), U32(a.now));
            && (Sent(req.id) in Added(c, a) <==> outcome.Waiting? && outcome.send)
            && (TimesOut(c, a, req.id) <==> outcome.Expired?)
  {
    var req := c.engine.reqs[j];
    assert Added(c, a) == PollList(c.engine.reqs, a.now, a.ack).1;
    PollReaches(c.engine.reqs, a.now, a.ack, j);
    AboutDecides(c, a, req.id, PollEvents(req, a.now, a.ack(req.id)));
    PollEventsSay(req, a.now, a.ack(req.id));
  }

  lemma PollEventsSay(req: Req, now: int, ack: Retransmission.AckTimeout)
    requires !IsIdle(req)
    ensures var about, outcome := PollEvents(req, now, ack), Retransmission.Poll(req.pending, ack, U32(now));
            && (Sent(req.id) in about <==> outcome.Waiting? && outcome.send)
            && ((exists e :: e in about && e.Called? && e.id == req.id && e.rsp.status == TIMEOUT) <==> outcome.Expired?)
  {
    var about := PollEvents(req, now, ack);
    if Retransmission.Poll(req.pending, ack, U32(now)).Expired? {
      assert about[0] in about;
    }
  }

  /** A step that does not poll the request, or finds it not waiting. */
  lemma UnpolledTracks(c: Client, a: Action, id: nat, p: Option<Retransmission.Pending>)
    requires Inv(c.engine) && Tracks(c, id, p) && !Polled(c, a, id)
    ensures Tracks(Next(c, a), id, p) && Sent(id) !in Added(c, a) && !TimesOut(c, a, id)
  {
    if a.PollStep? {
      var reqs := c.engine.reqs;
      assert Added(c, a) == PollList(reqs, a.now, a.ack).1;
      assert InState(reqs, id, None);
      PollListTracks(reqs, a.now, a.ack, id, None);
      PollIgnores(reqs, a.now, a.ack, id);
      AboutDecides(c, a, id, []);
    } else {
      OtherStepTracks(c, a, id, p);
    }
  }

  // ---------------------------------------------------------------- whole runs

  lemma PollsFrom(c: Client, actions: seq<Action>, id: nat, ack: Retransmission.AckTimeout, all: seq<nat>, i: nat)
    requires actions != [] && PolledWith(actions, id, ack) && i <= |all| && all[i..] == Polls(c, actions, id)
    ensures PolledWith(actions[1..], id, ack)
    ensures var rest := Polls(Next(c, actions[0]), actions[1..], id);
            if Polled(c, actions[0], id) then i < |all| && all[i] == actions[0].now && all[i + 1..] == rest
            else all[i..] == rest
  {
    if Polled(c, actions[0], id) {
      assert all[i..][1..] == all[i + 1..] && all[i..][0] == all[i];
    }
  }

  /** A request that does not wait for an answer any more is never polled, sent or timed out again. */
  lemma {:induction false} DoneIsDone(c: Client, actions: seq<Action>, id: nat, ack: Retransmission.AckTimeout, i: nat)
    requires Inv(c.engine) && KnownIds(c.engine) && Tracks(c, id, None) && PolledWith(actions, id, ack)
    ensures Polls(c, actions, id) == [] && SentAt(c, actions, id, i) == [] && TimedOutAt(c, actions, id, i) == None
    decreases |actions|
  {
    if actions != [] {
      StepKeepsEngineInv(c, actions[0]);
      assert !Active(c, id);
      UnpolledTracks(c, actions[0], id, None);
      DoneIsDone(Next(c, actions[0]), actions[1..], id, ack, i);
    }
  }

  /** What a run does to a request is what its polls, by themselves, do to an unanswered one. */
  lemma {:induction false} RunIsUnanswered(c: Client, actions: seq<Action>, id: nat, ack: Retransmission.AckTimeout,
                                           all: seq<nat>, i: nat, p: Retransmission.Pending)
    requires Inv(c.engine) && KnownIds(c.engine) && Tracks(c, id, Some(p)) && PolledWith(actions, id, ack)
    requires i <= |all| && all[i..] == Polls(c, actions, id)
    ensures var h := Retransmission.Unanswered(p, ack, all, i);
            SentAt(c, actions, id, i) == h.sentAt && TimedOutAt(c, actions, id, i) == h.droppedAt
    decreases |actions|
  {
    if actions != [] {
      var a, next := actions[0], Next(c, actions[0]);
      StepKeepsEngineInv(c, a);
      PollsFrom(c, actions, id, ack, all, i);
      if Polled(c, a, id) {
        PolledTracks(c, a, id, p);
        match Retransmission.Poll(p, ack, U32(a.now))
        case Expired => DoneIsDone(next, actions[1..], id, ack, i + 1);
        case Waiting(q, _, _) => RunIsUnanswered(next, actions[1..], id, ack, all, i + 1, q);
      } else {
        UnpolledTracks(c, a, id, Some(p));
        RunIsUnanswered(next, actions[1..], id, ack, all, i, p);
      }
    }
  }

  /** The step schedules a request. */
  predicate Schedules(c: Client, a: Action) {
    && (a.Request? || a.AddObserve? || a.Establish?) && a.now >= 0
    && |Next(c, a).engine.scheduled| == |c.engine.scheduled| + 1
  }

  /** Over every run from the step that schedules a request on, whatever else happens in it: as long as it
      waits for an answer, the request is sent exactly at the polls that begin one of its four periods,
      and told of its timeout exactly at the first poll from fifteen timeouts after it was scheduled. */
  lemma TransmissionsOfARequest(c: Client, a: Action, rest: seq<Action>, ack: Retransmission.AckTimeout, gap: nat)
    requires Inv(c.engine) && KnownIds(c.engine) && Schedules(c, a)
    requires PolledWith(rest, |c.engine.scheduled|, ack)
    requires Retransmission.PollSchedule(a.now, ack, gap, Polls(Next(c, a), rest, |c.engine.scheduled|))
    ensures var id, c1 := |c.engine.scheduled|, Next(c, a);
            var polls, sent := Polls(c1, rest, id), SentAt(c1, rest, id, 0);
            && Active(c1, id) && Sent(id) !in Added(c, a)
            && (forall i: nat :: i in sent <==> Retransmission.BeginsPeriod(a.now, ack, polls, i)) && |sent| <= 4
            && (forall i: nat :: TimedOutAt(c1, rest, id, 0) == Some(i) <==> Retransmission.IsFirstLate(a.now, ack, polls, i))
  {
    var id, c1 := |c.engine.scheduled|, Next(c, a);
    var polls := Polls(c1, rest, id);
    StepKeepsEngineInv(c, a);
    ScheduledState(c, a);
    assert polls[0..] == polls;
    RunIsUnanswered(c1, rest, id, ack, polls, 0, Retransmission.InitPending(U32(a.now)));
    Retransmission.UnansweredRequest(a.now, ack, gap, polls);
  }

  lemma ScheduledState(c: Client, a: Action)
    requires Inv(c.engine) && Schedules(c, a)
    ensures var id, t := |c.engine.scheduled|, Next(c, a);
            && Tracks(t, id, Some(Retransmission.InitPending(U32(a.now)))) && Active(t, id)
            && Added(c, a) == []
  {
    var t := Next(c, a).engine;
    assert t.reqs[|c.engine.reqs|].id == |c.engine.scheduled|;
  }
}
