/** Blockwise download (`golioth_blockwise_get` and `on_block_rcvd`): one context per transfer, one
    outstanding request at a time, callbacks to the application in between. */
module BlockDownload {
  import opened Basics

  /** What one run of `on_block_rcvd` decides. */
  datatype After =
    | Continue                                      // the request for the next block is enqueued
    | Ended(status: Status, idx: nat, notify: bool) // context freed; `notify`: end callback called

  /** `on_block_rcvd` for block `idx`: `answer` is the request's status, `callback` what the block
      callback returned (it is called only when `answer` is OK), `enqueue` what requesting the next
      block returned (it is requested only when the transfer goes on). */
  function OnBlock(idx: nat, postResponse: bool, answer: Status, isLast: bool, callback: Status,
                   enqueue: Status): After
  {
    var status := if answer.OK? then callback else answer;
    if postResponse && idx == 0 && !status.OK? then Ended(status, idx, false)
    else if isLast || !status.OK? then Ended(status, idx, true)
    else if !enqueue.OK? then Ended(enqueue, idx + 1, true)
    else Continue
  }

  /** Whether the engine hands block `d` to the callback while block `idx` is asked for
      (CoapRequests.BlockIsServedExactlyWhenDeliverable): a block 0 restarts the offset check, and
      otherwise only offsets below the one asked for are dropped. The block index given to the
      application is `idx` in any case. */
  predicate Deliverable(idx: nat, d: nat) {
    d == 0 || d >= idx
  }

  /** What the application and the allocator see of one transfer, in order. */
  datatype Event =
    | BlockCb(idx: nat, payload: seq<Byte>, isLast: bool, result: Status)
    | EndCb(status: Status, idx: nat)
    | Free

  /** One answer to an outstanding request, with the callback's and the queue's reactions. */
  datatype Answer = Answer(status: Status, payload: seq<Byte>, isLast: bool, callback: Status, enqueue: Status)

  /** A transfer: `inFlight` tells whether a request is outstanding, `live` whether the context is
      still allocated. */
  datatype Transfer = Transfer(idx: nat, postResponse: bool, inFlight: bool, live: bool, log: seq<Event>)

  /** `golioth_blockwise_get`, the part after its argument checks; a refused first request is
      reported to the caller and leaves the context allocated. */
  function Get(start: nat, enqueue: Status): (Status, Transfer) {
    (enqueue, Transfer(start, false, enqueue.OK?, true, []))
  }

  /** The context `golioth_blockwise_upload_block` attaches to the last block of a POST. */
  function PostResponse(): Transfer {
    Transfer(0, true, true, true, [])
  }

  /** One internal callback. */
  function Receive(t: Transfer, a: Answer): Transfer
    requires t.inFlight
  {
    var seen := if a.status.OK? then t.log + [BlockCb(t.idx, a.payload, a.isLast, a.callback)] else t.log;
    match OnBlock(t.idx, t.postResponse, a.status, a.isLast, a.callback, a.enqueue)
    case Continue => t.(idx := t.idx + 1, log := seen)
    case Ended(status, idx, notify) =>
      t.(idx := idx, inFlight := false, live := false,
         log := (if notify then seen + [EndCb(status, idx)] else seen) + [Free])
  }

  /** The rest of a transfer: answers are used up one per outstanding request. */
  ghost function Run(t: Transfer, answers: seq<Answer>): Transfer
    decreases |answers|
  {
    if !t.inFlight || answers == [] then t else Run(Receive(t, answers[0]), answers[1..])
  }

  ghost predicate Accepted(e: Event) {
    e.BlockCb? && e.result.OK?
  }

  /** The first `n` events are block callbacks with consecutive indices. */
  ghost predicate Consecutive(log: seq<Event>, start: nat, n: nat) {
    n <= |log| && forall i :: 0 <= i < n ==> log[i].BlockCb? && log[i].idx == start + i
  }

  /** All but the final one of `n` block callbacks were accepted and were not the last block. */
  ghost predicate GoesOn(log: seq<Event>, n: nat) {
    n <= |log| && forall i :: 0 <= i < n ==> Accepted(log[i]) && !log[i].isLast
  }

  /** While a request is outstanding the application has seen exactly the blocks before `idx`. */
  ghost predicate Ongoing(t: Transfer, start: nat) {
    && t.inFlight && t.live
    && t.idx == start + |t.log|
    && Consecutive(t.log, start, |t.log|) && GoesOn(t.log, |t.log|)
  }

  /** A finished transfer: `n` block callbacks with consecutive indices, at most the last of them
      refused or marked last; then the end callback, once, naming the block to resume with (or the
      last block, on success); then the context is freed, once, and nothing follows. The end callback
      is missing exactly when a POST's response failed on its block 0. */
  ghost predicate Finished(t: Transfer, start: nat, n: nat, status: Status, notified: bool) {
    && !t.inFlight && !t.live
    && Consecutive(t.log, start, n)
    && (n > 0 ==> GoesOn(t.log, n - 1))
    && t.log[n..] == (if notified then [EndCb(status, t.idx)] else []) + [Free]
    && (status.OK? <==> n > 0 && Accepted(t.log[n - 1]) && t.log[n - 1].isLast)
    && t.idx == start + (if n > 0 && (t.log[n - 1].isLast || !Accepted(t.log[n - 1])) then n - 1 else n)
    && (notified <==> !(t.postResponse && t.idx == 0 && !status.OK?))
  }

  /** The answer ends the transfer: it is a failure, the callback refuses its block, it is the last
      block, or the next one cannot be requested. */
  predicate Stops(a: Answer) {
    !a.status.OK? || !a.callback.OK? || a.isLast || !a.enqueue.OK?
  }

  /** What the transfer then ends with. */
  function EndStatus(a: Answer): Status {
    if !a.status.OK? then a.status else if !a.callback.OK? then a.callback else if a.isLast then OK else a.enqueue
  }

  /** The first answer that ends the transfer, or the number of answers. */
  function FirstStop(answers: seq<Answer>): (k: nat)
    ensures k <= |answers| && (k < |answers| ==> Stops(answers[k]))
    ensures forall i :: 0 <= i < k ==> !Stops(answers[i])
  {
    if answers == [] || Stops(answers[0]) then 0 else 1 + FirstStop(answers[1..])
  }

  /** From position `from` on, the log holds the callbacks for the first `n` answers: each is given the
      next index and what its answer carried. */
  ghost predicate Shows(log: seq<Event>, from: nat, idx: nat, answers: seq<Answer>, n: nat) {
    && from + n <= |log| && n <= |answers|
    && forall i :: 0 <= i < n ==>
         log[from + i] == BlockCb(idx + i, answers[i].payload, answers[i].isLast, answers[i].callback)
  }

  /** The end callback comes, except when a POST's response fails on its block 0. */
  predicate Notified(t: Transfer, k: nat, a: Answer) {
    !(t.postResponse && t.idx + k == 0 && (!a.status.OK? || !a.callback.OK?))
  }

  /** The last answer of a transfer: a failure. */
  lemma AnswerFails(t: Transfer, a: Answer, start: nat)
    requires Ongoing(t, start) && !a.status.OK?
    ensures Finished(Receive(t, a), start, |t.log|, EndStatus(a), Notified(t, 0, a))
  {
    var u := Receive(t, a);
    assert u.log == t.log + ((if Notified(t, 0, a) then [EndCb(a.status, t.idx)] else []) + [Free]);
  }

  /** The last answer of a transfer: a block. */
  lemma BlockEnds(t: Transfer, a: Answer, start: nat)
    requires Ongoing(t, start) && a.status.OK? && Stops(a)
    ensures Finished(Receive(t, a), start, |t.log| + 1, EndStatus(a), Notified(t, 0, a))
    ensures Shows(Receive(t, a).log, |t.log|, t.idx, [a], 1)
  {
    var u := Receive(t, a);
    var seen := t.log + [BlockCb(t.idx, a.payload, a.isLast, a.callback)];
    var tail := (if Notified(t, 0, a) then [EndCb(EndStatus(a), u.idx)] else []) + [Free];
    assert u.log == seen + tail;
    assert Consecutive(u.log, start, |seen|) && GoesOn(u.log, |t.log|);
  }

  lemma BlockGoesOn(t: Transfer, a: Answer, start: nat)
    requires Ongoing(t, start) && !Stops(a)
    ensures var u := Receive(t, a);
            && Ongoing(u, start) && |u.log| == |t.log| + 1 && u.postResponse == t.postResponse
            && u.log[|t.log|] == BlockCb(t.idx, a.payload, false, a.callback)
  {
  }

  /** One answer: the transfer goes on, exactly when it does not stop it, having shown its block; or it
      ends in its final form, with the status the answer gives. */
  lemma ReceiveKeepsForm(t: Transfer, a: Answer, start: nat)
    requires Ongoing(t, start)
    ensures var u := Receive(t, a);
            var n := if a.status.OK? then 1 else 0;
            && Shows(u.log, |t.log|, t.idx, [a], n)
            && if Stops(a) then Finished(u, start, |t.log| + n, EndStatus(a), Notified(t, 0, a))
               else Ongoing(u, start) && |u.log| == |t.log| + 1
  {
    if !Stops(a) {
      BlockGoesOn(t, a, start);
    } else if a.status.OK? {
      BlockEnds(t, a, start);
    } else {
      AnswerFails(t, a, start);
    }
  }

  lemma {:induction false} RunExtends(t: Transfer, answers: seq<Answer>)
    ensures t.log <= Run(t, answers).log
    decreases |answers|
  {
    if t.inFlight && answers != [] {
      RunExtends(Receive(t, answers[0]), answers[1..]);
    }
  }

  /** What has become of a transfer when the answers are used up or one of them has ended it. */
  ghost predicate InForm(t: Transfer, answers: seq<Answer>, start: nat, u: Transfer) {
    var k := FirstStop(answers);
    if k == |answers| then
      Ongoing(u, start) && |u.log| == |t.log| + k && Shows(u.log, |t.log|, t.idx, answers, k)
    else
      var n := if answers[k].status.OK? then k + 1 else k;
      && Finished(u, start, |t.log| + n, EndStatus(answers[k]), Notified(t, k, answers[k]))
      && Shows(u.log, |t.log|, t.idx, answers, n)
  }

  /** Given one callback per enqueued request, every transfer is still waiting, having shown the
      application the blocks of all answers under consecutive indices, or was finished by the first
      answer that ends it, having shown those before, and ended with the status that answer gives. */
  lemma {:induction false} TransferForm(t: Transfer, answers: seq<Answer>, start: nat)
    requires Ongoing(t, start)
    ensures InForm(t, answers, start, Run(t, answers))
    decreases |answers|
  {
    if answers != [] {
      var a, rest, next := answers[0], answers[1..], Receive(t, answers[0]);
      ReceiveKeepsForm(t, a, start);
      if Stops(a) {
        assert Run(next, rest) == next && FirstStop(answers) == 0;
        OneShown(next.log, |t.log|, t.idx, answers);
      } else {
        BlockGoesOn(t, a, start);
        TransferForm(next, rest, start);
        RunExtends(next, rest);
        InFormCons(t, answers, start, Run(next, rest));
      }
    }
  }

  lemma OneShown(log: seq<Event>, from: nat, idx: nat, answers: seq<Answer>)
    requires answers != []
    ensures Shows(log, from, idx, [answers[0]], 1) ==> Shows(log, from, idx, answers, 1)
    ensures from <= |log| ==> Shows(log, from, idx, answers, 0)
  {
    assert [answers[0]][0] == answers[0];
  }

  /** An answer that does not end the transfer, and what becomes of it after. */
  lemma InFormCons(t: Transfer, answers: seq<Answer>, start: nat, u: Transfer)
    requires Ongoing(t, start) && answers != [] && !Stops(answers[0])
    requires InForm(Receive(t, answers[0]), answers[1..], start, u) && Receive(t, answers[0]).log <= u.log
    ensures InForm(t, answers, start, u)
  {
    var next, rest := Receive(t, answers[0]), answers[1..];
    var k := FirstStop(rest);
    BlockGoesOn(t, answers[0], start);
    assert FirstStop(answers) == k + 1;
    var n := if k < |rest| && rest[k].status.OK? then k + 1 else k;
    ShowsCons(u.log, |t.log|, t.idx, answers, n);
  }

  lemma ShowsCons(log: seq<Event>, from: nat, idx: nat, answers: seq<Answer>, n: nat)
    requires answers != [] && from < |log|
    requires log[from] == BlockCb(idx, answers[0].payload, answers[0].isLast, answers[0].callback)
    requires Shows(log, from + 1, idx + 1, answers[1..], n)
    ensures Shows(log, from, idx, answers, n + 1)
  {
    forall i | 0 <= i < n + 1
      ensures log[from + i] == BlockCb(idx + i, answers[i].payload, answers[i].isLast, answers[i].callback)
    {
      if i > 0 {
        assert log[(from + 1) + (i - 1)] == BlockCb((idx + 1) + (i - 1), answers[1..][i - 1].payload,
                                                    answers[1..][i - 1].isLast, answers[1..][i - 1].callback);
      }
    }
  }

  /** `golioth_blockwise_get`: one that returned OK hands over what the answers carry, one by one, and
      then always makes its end callback. */
  lemma GetForm(start: nat, enqueue: Status, answers: seq<Answer>)
    ensures var (r, t) := Get(start, enqueue);
            var u := Run(t, answers);
            var k := FirstStop(answers);
            && r == enqueue
            && (r.OK? && k == |answers| ==> Ongoing(u, start) && |u.log| == k && Shows(u.log, 0, start, answers, k))
            && (r.OK? && k < |answers| ==>
                  var n := if answers[k].status.OK? then k + 1 else k;
                  Finished(u, start, n, EndStatus(answers[k]), true) && Shows(u.log, 0, start, answers, n))
            // a refused first request: no callback at all, and the context is never freed
            && (!r.OK? ==> u.log == [] && u.live)
  {
    var (r, t) := Get(start, enqueue);
    if r.OK? {
      TransferForm(t, answers, start);
    }
  }

  /** A POST's response: the same, except that the end callback is suppressed when block 0 fails, by its
      answer or in the application's callback. */
  lemma PostResponseForm(answers: seq<Answer>)
    ensures var u := Run(PostResponse(), answers);
            var k := FirstStop(answers);
            if k == |answers| then Ongoing(u, 0) && |u.log| == k && Shows(u.log, 0, 0, answers, k)
            else
              var n := if answers[k].status.OK? then k + 1 else k;
              var suppressed := k == 0 && (!answers[0].status.OK? || !answers[0].callback.OK?);
              Finished(u, 0, n, EndStatus(answers[k]), !suppressed) && Shows(u.log, 0, 0, answers, n)
  {
    TransferForm(PostResponse(), answers, 0);
  }

  /** `struct get_block_ctx` and the callback that updates it in place. */
  class GetBlockCtx {
    var blockIdx: nat
    const postResponse: bool
    var inFlight: bool
    var live: bool
    ghost var log: seq<Event>

    ghost function View(): Transfer
      reads this
    {
      Transfer(blockIdx, postResponse, inFlight, live, log)
    }

    constructor Start(start: nat, enqueue: Status)
      ensures View() == Get(start, enqueue).1
    {
      blockIdx, postResponse, live := start, false, true;
      inFlight, log := enqueue.OK?, [];
    }

    constructor ForPostResponse()
      ensures View() == PostResponse()
    {
      blockIdx, postResponse, live, inFlight, log := 0, true, true, true, [];
    }

    /** `on_block_rcvd`: reads the context only while it is allocated. */
    method OnBlockRcvd(a: Answer)
      requires inFlight && live
      modifies this
      ensures View() == Receive(old(View()), a)
    {
      var status := a.status;
      if status.OK? {
        log := log + [BlockCb(blockIdx, a.payload, a.isLast, a.callback)];
        status := a.callback;
      }
      inFlight := false;
      if postResponse && blockIdx == 0 && !status.OK? {
        live, log := false, log + [Free];
      } else if a.isLast || !status.OK? {
        log := log + [EndCb(status, blockIdx)];
        live, log := false, log + [Free];
      } else {
        blockIdx := blockIdx + 1;
        status := a.enqueue;
        if status.OK? {
          inFlight := true;
        } else {
          log := log + [EndCb(status, blockIdx)];
          live, log := false, log + [Free];
        }
      }
    }
  }
}
