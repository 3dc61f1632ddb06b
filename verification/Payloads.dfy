/** Ownership of copied request payloads: `golioth_coap_client_set_internal` allocates them, the I/O
    loop, the ageing check, a full queue or the purge at destruction frees them. */
module Payloads {
  import opened Basics

  datatype Kind = Post | PostBlock | Other

  /** A heap pointer: NULL or the identity of an allocation. */
  datatype Pointer = Null | Ptr(id: nat)

  /** The fields of `struct golioth_coap_request_msg` that decide what becomes of the payload. */
  datatype Message = Message(kind: Kind, payload: Pointer, payloadSize: nat, ageoutMs: nat)

  /** The mailbox, the allocator's view (`live` allocations, `freed` in order, double frees included)
      and the number of allocations made. */
  datatype Client = Client(queue: seq<Message>, live: set<nat>, freed: seq<nat>, mallocs: nat)

  /** `golioth_sys_free`; freeing NULL does nothing. */
  function Free(c: Client, p: Pointer): Client {
    if p.Null? then c else c.(live := c.live - {p.id}, freed := c.freed + [p.id])
  }

  /** `golioth_coap_client_set_internal` for a POST or a POST_BLOCK: `accepted` stands for the checks
      before the copy, `memory` for the allocation. */
  function SetInternal(c: Client, kind: Kind, size: nat, ageoutMs: nat, capacity: nat,
                       accepted: bool, memory: bool): (Status, Client)
  {
    if !accepted then (INVALID_STATE, c)
    else if size > 0 && !memory then (MEM_ALLOC, c)
    else
      var payload := if size > 0 then Ptr(c.mallocs) else Null;
      var d := if size > 0 then c.(live := c.live + {c.mallocs}, mallocs := c.mallocs + 1) else c;
      if |c.queue| >= capacity then (QUEUE_FULL, Free(d, payload))
      else (OK, d.(queue := d.queue + [Message(kind, payload, size, ageoutMs)]))
  }

  /** Enqueueing any other request. */
  function EnqueueOther(c: Client, ageoutMs: nat, capacity: nat): (Status, Client) {
    if |c.queue| >= capacity then (QUEUE_FULL, c)
    else (OK, c.(queue := c.queue + [Message(Other, Null, 0, ageoutMs)]))
  }

  /** `coap_io_loop_once`: nothing is taken when its own message cannot be allocated; an aged-out
      message frees its payload if it has one, a message sent frees it in any case. */
  function IoLoopOnce(c: Client, memory: bool, now: nat): Client {
    if !memory || c.queue == [] then c
    else
      var m := c.queue[0];
      var d := c.(queue := c.queue[1..]);
      if now > m.ageoutMs then
        if !m.kind.Other? && m.payloadSize > 0 then Free(d, m.payload) else d
      else if m.kind.Other? then d
      else Free(d, m.payload)
  }

  /** `purge_request_mbox`. */
  function Purge(c: Client): Client
    decreases |c.queue|
  {
    if c.queue == [] then c
    else
      var m := c.queue[0];
      var d := c.(queue := c.queue[1..]);
      Purge(if m.kind.Other? then d else Free(d, m.payload))
  }

  datatype Action =
    | Set(kind: Kind, size: nat, ageout: nat, accepted: bool, memory: bool)
    | Enqueue(ageout: nat)
    | Loop(memory: bool, now: nat)
    | Destroy

  function Next(c: Client, a: Action, capacity: nat): Client {
    match a
    case Set(kind, size, ageout, accepted, memory) =>
      if kind.Other? then c else SetInternal(c, kind, size, ageout, capacity, accepted, memory).1
    case Enqueue(ageout) => EnqueueOther(c, ageout, capacity).1
    case Loop(memory, now) => IoLoopOnce(c, memory, now)
    case Destroy => Purge(c)
  }

  function Run(c: Client, actions: seq<Action>, capacity: nat): Client
    decreases |actions|
  {
    if actions == [] then c else Run(Next(c, actions[0], capacity), actions[1..], capacity)
  }

  const EMPTY := Client([], {}, [], 0)

  /** The payload a message refers to, as a set. */
  ghost function PayloadOf(m: Message): set<nat> {
    if m.payload.Ptr? then {m.payload.id} else {}
  }

  ghost function Referenced(queue: seq<Message>): set<nat> {
    if queue == [] then {} else PayloadOf(queue[0]) + Referenced(queue[1..])
  }

  /** A payload belongs to one message, is there exactly when its size says so, and only POST and
      POST_BLOCK requests have one. */
  ghost predicate Owned(queue: seq<Message>) {
    && (forall i :: 0 <= i < |queue| ==>
          && (queue[i].payload.Ptr? <==> queue[i].payloadSize > 0)
          && (queue[i].payload.Ptr? ==> !queue[i].kind.Other?))
    && (forall i, j :: 0 <= i < j < |queue| && queue[i].payload.Ptr? ==> queue[i].payload != queue[j].payload)
  }

  ghost predicate NoRepeats(s: seq<nat>) {
    forall i, j :: 0 <= i < j < |s| ==> s[i] != s[j]
  }

  ghost predicate Inv(c: Client) {
    && Owned(c.queue)
    // between steps the live payloads are exactly those referenced by messages in the mailbox
    && c.live == Referenced(c.queue)
    // nothing is freed twice, nothing live was freed, nothing allocated is lost
    && NoRepeats(c.freed)
    && (forall id :: id in c.freed ==> id !in c.live)
    && (forall id :: 0 <= id < c.mallocs <==> (id in c.live || id in c.freed))
  }

  lemma {:induction false} ReferencedIn(queue: seq<Message>, id: nat)
    ensures id in Referenced(queue) <==> exists i :: 0 <= i < |queue| && queue[i].payload == Ptr(id)
  {
    if queue != [] {
      ReferencedIn(queue[1..], id);
      if id in Referenced(queue[1..]) {
        var i :| 0 <= i < |queue| - 1 && queue[1..][i].payload == Ptr(id);
        assert queue[i + 1].payload == Ptr(id);
      }
      if exists i :: 0 <= i < |queue| && queue[i].payload == Ptr(id) {
        var i :| 0 <= i < |queue| && queue[i].payload == Ptr(id);
        if i > 0 {
          assert queue[1..][i - 1].payload == Ptr(id);
        }
      }
    }
  }

  lemma {:induction false} ReferencedSnoc(queue: seq<Message>, m: Message)
    ensures Referenced(queue + [m]) == Referenced(queue) + PayloadOf(m)
  {
    if queue == [] {
      assert queue + [m] == [m] && [m][1..] == [];
    } else {
      assert (queue + [m])[1..] == queue[1..] + [m];
      ReferencedSnoc(queue[1..], m);
    }
  }

  lemma EnqueueKeepsInv(c: Client, d: Client, m: Message)
    requires Inv(c) && d.queue == c.queue + [m] && d.freed == c.freed
    requires m.payload.Ptr? <==> m.payloadSize > 0
    requires m.payload.Ptr? ==> !m.kind.Other? && m.payload.id == c.mallocs
    requires d.live == c.live + PayloadOf(m)
    requires d.mallocs == c.mallocs + if m.payload.Ptr? then 1 else 0
    ensures Inv(d)
  {
    ReferencedSnoc(c.queue, m);
    if m.payload.Ptr? {
      ReferencedIn(c.queue, c.mallocs);
      assert c.mallocs !in c.live && c.mallocs !in c.freed;
    }
  }

  /** Taking the oldest message out and freeing its payload, if any. */
  lemma TakeKeepsInv(c: Client)
    requires Inv(c) && c.queue != []
    ensures Inv(Free(c.(queue := c.queue[1..]), c.queue[0].payload))
  {
    var m := c.queue[0];
    var rest := c.queue[1..];
    if m.payload.Ptr? {
      ReferencedIn(rest, m.payload.id);
      assert m.payload.id !in Referenced(rest);
      assert m.payload.id in c.live;
      assert c.live - {m.payload.id} == Referenced(rest);
    }
  }

  lemma {:induction false} PurgeKeepsInv(c: Client)
    requires Inv(c)
    ensures Inv(Purge(c)) && Purge(c).queue == [] && Purge(c).live == {}
    ensures Purge(c).mallocs == c.mallocs
    decreases |c.queue|
  {
    if c.queue != [] {
      var m := c.queue[0];
      TakeKeepsInv(c);
      PurgeKeepsInv(Free(c.(queue := c.queue[1..]), m.payload));
    }
  }

  lemma StepKeepsInv(c: Client, a: Action, capacity: nat)
    requires Inv(c)
    ensures Inv(Next(c, a, capacity))
  {
    match a
    case Set(kind, size, ageout, accepted, memory) =>
      if !kind.Other? && accepted && (size == 0 || memory) {
        var d := Next(c, a, capacity);
        if |c.queue| < capacity {
          EnqueueKeepsInv(c, d, d.queue[|c.queue|]);
        } else if size > 0 {
          assert c.mallocs !in c.live && c.mallocs !in c.freed;
          assert d.live == c.live;
        }
      }
    case Enqueue(ageout) =>
      if |c.queue| < capacity {
        EnqueueKeepsInv(c, Next(c, a, capacity), Message(Other, Null, 0, ageout));
      }
    case Loop(memory, now) =>
      if memory && c.queue != [] {
        TakeKeepsInv(c);
      }
    case Destroy => PurgeKeepsInv(c);
  }

  lemma {:induction false} RunKeepsInv(c: Client, actions: seq<Action>, capacity: nat)
    requires Inv(c)
    ensures Inv(Run(c, actions, capacity))
    decreases |actions|
  {
    if actions != [] {
      StepKeepsInv(c, actions[0], capacity);
      RunKeepsInv(Next(c, actions[0], capacity), actions[1..], capacity);
    }
  }

  /** Over any run of enqueueing, full queues, ageing out, sending and purging: each payload copied so
      far is either referenced by exactly one message still in the mailbox or was freed, exactly
      once; after a purge all were freed. */
  lemma EachPayloadFreedOnce(actions: seq<Action>, capacity: nat, id: nat)
    ensures var c := Run(EMPTY, actions, capacity);
            && NoRepeats(c.freed)
            && (id in c.live <==> exists i :: 0 <= i < |c.queue| && c.queue[i].payload == Ptr(id))
            && (id < c.mallocs ==> (id in c.freed <==> id !in c.live))
            && (id >= c.mallocs ==> id !in c.freed && id !in c.live)
            && (id < c.mallocs ==> id in Purge(c).freed && NoRepeats(Purge(c).freed))
  {
    RunKeepsInv(EMPTY, actions, capacity);
    var c := Run(EMPTY, actions, capacity);
    ReferencedIn(c.queue, id);
    PurgeKeepsInv(c);
  }

  /** A request is queued exactly when its arguments are accepted, its payload, if any, could be copied, and
      there is room; it is then the newest, with its own copy. Otherwise nothing has changed but, with a full
      queue, the copy that was made and freed again. */
  lemma SetInternalOutcome(c: Client, kind: Kind, size: nat, ageoutMs: nat, capacity: nat, accepted: bool, memory: bool)
    requires Inv(c)
    ensures var (status, d) := SetInternal(c, kind, size, ageoutMs, capacity, accepted, memory);
            && (status.OK? <==> accepted && (size == 0 || memory) && |c.queue| < capacity)
            && (status.OK? ==>
                  && |d.queue| == |c.queue| + 1 && d.queue[..|c.queue|] == c.queue && d.freed == c.freed
                  && var m := d.queue[|c.queue|];
                     && m.kind == kind && m.payloadSize == size && m.ageoutMs == ageoutMs
                     && (if size > 0 then m.payload.Ptr? && m.payload.id !in c.live && d.live == c.live + {m.payload.id}
                         else m.payload.Null? && d.live == c.live))
            && (!status.OK? ==> d.queue == c.queue && d.live == c.live)
            && (status.QUEUE_FULL? ==> d.freed == c.freed + if size > 0 then [c.mallocs] else [])
            && (!status.OK? && !status.QUEUE_FULL? ==> d == c)
  {
    assert c.mallocs !in c.live;
  }

  /** Any other request is queued exactly when there is room. */
  lemma EnqueueOutcome(c: Client, ageoutMs: nat, capacity: nat)
    ensures var (status, d) := EnqueueOther(c, ageoutMs, capacity);
            if |c.queue| < capacity then
              && status == OK && d.live == c.live && d.freed == c.freed
              && |d.queue| == |c.queue| + 1 && d.queue[..|c.queue|] == c.queue
              && d.queue[|c.queue|] == Message(Other, Null, 0, ageoutMs)
            else status == QUEUE_FULL && d == c
  {
  }

  /** The loop takes the oldest message, whatever becomes of it, and with it its payload only. */
  lemma IoLoopOutcome(c: Client, memory: bool, now: nat)
    requires Inv(c)
    ensures var d := IoLoopOnce(c, memory, now);
            if !memory || c.queue == [] then d == c
            else
              && d.queue == c.queue[1..]
              && d.live == c.live - PayloadOf(c.queue[0])
              && d.freed == c.freed + (match c.queue[0].payload case Null => [] case Ptr(id) => [id])
  {
  }

  /** The same operations in place. */
  class RequestQueue {
    const capacity: nat
    var queue: seq<Message>
    ghost var live: set<nat>
    ghost var freed: seq<nat>
    var mallocs: nat

    ghost function View(): Client
      reads this
    {
      Client(queue, live, freed, mallocs)
    }

    constructor (numItems: nat)
      ensures View() == EMPTY && capacity == numItems
    {
      capacity, queue, live, freed, mallocs := numItems, [], {}, [], 0;
    }

    method Malloc() returns (p: Pointer)
      modifies this`mallocs, this`live
      ensures p == Ptr(old(mallocs)) && mallocs == old(mallocs) + 1 && live == old(live) + {p.id}
    {
      p := Ptr(mallocs);
      live := live + {mallocs};
      mallocs := mallocs + 1;
    }

    method FreePointer(p: Pointer)
      modifies this`live, this`freed
      ensures View() == Free(old(View()), p)
    {
      if p.Ptr? {
        live := live - {p.id};
        freed := freed + [p.id];
      }
    }

    method SetInternalInPlace(kind: Kind, size: nat, ageoutMs: nat, accepted: bool, memory: bool)
        returns (status: Status)
      modifies this
      ensures (status, View()) == SetInternal(old(View()), kind, size, ageoutMs, capacity, accepted, memory)
    {
      if !accepted {
        return INVALID_STATE;
      }
      var payload := Null;
      if size > 0 {
        if !memory {
          return MEM_ALLOC;
        }
        payload := Malloc();
      }
      if |queue| >= capacity {
        FreePointer(payload);
        return QUEUE_FULL;
      }
      queue := queue + [Message(kind, payload, size, ageoutMs)];
      return OK;
    }

    method IoLoopOnceInPlace(memory: bool, now: nat)
      modifies this
      ensures View() == IoLoopOnce(old(View()), memory, now)
    {
      if !memory || queue == [] {
        return;
      }
      var m := queue[0];
      queue := queue[1..];
      if now > m.ageoutMs {
        if m.kind.Post? && m.payloadSize > 0 {
          FreePointer(m.payload);
        }
        if m.kind.PostBlock? && m.payloadSize > 0 {
          FreePointer(m.payload);
        }
        return;
      }
      match m.kind
      case Post => FreePointer(m.payload);
      case PostBlock => FreePointer(m.payload);
      case Other =>
    }

    /** The loop of `purge_request_mbox` over the number of messages counted at its start. */
    method PurgeRequestMbox()
      modifies this
      ensures View() == Purge(old(View())) && queue == []
    {
      var numMessages := |queue|;
      for i := 0 to numMessages
        invariant |queue| == numMessages - i
        invariant Purge(View()) == Purge(old(View()))
      {
        var m := queue[0];
        queue := queue[1..];
        if m.kind.Post? {
          FreePointer(m.payload);
        } else if m.kind.PostBlock? {
          FreePointer(m.payload);
        }
      }
    }
  }
}
