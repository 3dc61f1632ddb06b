/** Reordering of notifications (RFC 7641 section 3.4) as `golioth_coap_req_process_rx` applies it:
    sequence numbers are 24 bits wide and wrap. */
module ObserveOrder {
  import opened Basics

  const SEQ_MODULUS: int := 0x100_0000
  const SEQ_HALF: int := 0x80_0000
  /** COAP_OBSERVE_TS_DIFF_NEWER, in milliseconds. */
  const TS_DIFF_NEWER: int := 128_000

  /** `struct golioth_coap_reply`. */
  datatype Reply = Reply(seqno: int, ts: int)

  /** The state `golioth_coap_req_init` gives a new request. */
  const INITIAL_REPLY := Reply(0, -TS_DIFF_NEWER)

  predicate SequenceNumberIsNewer(v1: int, v2: int) {
    (v1 < v2 && v2 - v1 < SEQ_HALF) || (v1 > v2 && v1 - v2 > SEQ_HALF)
  }

  /** `golioth_coap_reply_is_newer`. */
  predicate ReplyIsNewer(reply: Reply, seqno: int, uptime: int) {
    uptime > reply.ts + TS_DIFF_NEWER || SequenceNumberIsNewer(reply.seqno, seqno)
  }

  /** On 24-bit numbers the test is exactly "less than half the number circle ahead". */
  lemma NewerIsHalfCircleAhead(v1: int, v2: int)
    requires 0 <= v1 < SEQ_MODULUS && 0 <= v2 < SEQ_MODULUS
    ensures SequenceNumberIsNewer(v1, v2) <==> 0 < (v2 - v1) % SEQ_MODULUS < SEQ_HALF
  {
    if v1 <= v2 {
      assert (v2 - v1) % SEQ_MODULUS == v2 - v1;
    } else {
      ModShift(v2 - v1 + SEQ_MODULUS, -1);
    }
  }

  lemma ModShift(r: int, k: int)
    requires 0 <= r < SEQ_MODULUS
    ensures (r + k * SEQ_MODULUS) % SEQ_MODULUS == r
  {
  }

  lemma ModDifference(a: int, b: int)
    ensures (b % SEQ_MODULUS - a % SEQ_MODULUS) % SEQ_MODULUS == (b - a) % SEQ_MODULUS
  {
    var qa, qb := a / SEQ_MODULUS, b / SEQ_MODULUS;
    var r := (b - a) % SEQ_MODULUS;
    var k := (b - a) / SEQ_MODULUS;
    assert b % SEQ_MODULUS - a % SEQ_MODULUS == r + (k - qb + qa) * SEQ_MODULUS;
    ModShift(r, k - qb + qa);
  }

  /** In terms of the server's own unbounded counter: within half a circle the test is "greater". */
  lemma NewerByCounter(c1: nat, c2: nat)
    requires -SEQ_HALF < c2 - c1 < SEQ_HALF
    ensures SequenceNumberIsNewer(c1 % SEQ_MODULUS, c2 % SEQ_MODULUS) <==> c1 < c2
  {
    NewerIsHalfCircleAhead(c1 % SEQ_MODULUS, c2 % SEQ_MODULUS);
    ModDifference(c1, c2);
    if c2 >= c1 {
      ModShift(c2 - c1, 0);
    } else {
      ModShift(c2 - c1 + SEQ_MODULUS, -1);
    }
  }

  /** A notification as it arrives: the server's counter when it was sent, and the arrival time. */
  datatype Delivery = Delivery(counter: nat, uptime: int)

  /** The indices of the deliveries handed to the application, starting from a reply state. */
  ghost function Accepted(reply: Reply, ds: seq<Delivery>, i: nat): seq<nat>
    requires i <= |ds|
    decreases |ds| - i
  {
    if i == |ds| then []
    else
      var seqno := ds[i].counter % SEQ_MODULUS;
      if ReplyIsNewer(reply, seqno, ds[i].uptime)
      then [i] + Accepted(Reply(seqno, ds[i].uptime), ds, i + 1)
      else Accepted(reply, ds, i + 1)
  }

  /** Deliveries may be lost, repeated and reordered, but one that is no newer than an earlier
      delivery trails it by less than half the number circle and by at most 128 seconds. */
  ghost predicate BoundedReordering(ds: seq<Delivery>) {
    forall i, j :: 0 <= i < j < |ds| && ds[j].counter <= ds[i].counter ==>
        && ds[i].counter - ds[j].counter < SEQ_HALF
        && ds[j].uptime <= ds[i].uptime + TS_DIFF_NEWER
  }

  /** A newer delivery is less than half a circle ahead of an earlier one, unless more than 128
      seconds have passed. The clock has started before the first delivery. */
  ghost predicate BoundedGaps(ds: seq<Delivery>) {
    && (ds != [] ==> ds[0].uptime > 0)
    && forall i, j :: 0 <= i < j < |ds| && ds[j].counter > ds[i].counter ==>
        || ds[j].counter - ds[i].counter < SEQ_HALF
        || ds[j].uptime > ds[i].uptime + TS_DIFF_NEWER
  }

  /** What RFC 7641 section 3.4 assumes of the network. */
  ghost predicate Network(ds: seq<Delivery>) {
    BoundedReordering(ds) && BoundedGaps(ds)
  }

  /** Counters strictly increase along the listed deliveries. */
  ghost predicate IncreasingCounters(ds: seq<Delivery>, acc: seq<nat>) {
    && (forall a :: 0 <= a < |acc| ==> acc[a] < |ds|)
    && (forall a, b :: 0 <= a < b < |acc| ==> ds[acc[a]].counter < ds[acc[b]].counter)
  }

  /** With bounded reordering alone, and whatever numbers are skipped, the notifications handed to
      the application are strictly increasing in the server's counter. */
  lemma AcceptedIncrease(ds: seq<Delivery>, reply: Reply)
    requires BoundedReordering(ds)
    ensures IncreasingCounters(ds, Accepted(reply, ds, 0))
  {
    AcceptedIncreaseFrom(ds, 0, reply, None);
  }

  /** A delivery that is accepted after another has the larger counter. */
  lemma AcceptedIsLarger(ds: seq<Delivery>, last: nat, i: nat)
    requires BoundedReordering(ds) && last < i < |ds|
    requires ReplyIsNewer(ReplyTo(ds[last]), ds[i].counter % SEQ_MODULUS, ds[i].uptime)
    ensures ds[last].counter < ds[i].counter
  {
    if ds[i].counter <= ds[last].counter {
      NewerByCounter(ds[last].counter, ds[i].counter);
    }
  }

  lemma PrependAccepted(ds: seq<Delivery>, i: nat, rest: seq<nat>)
    requires i < |ds| && IncreasingCounters(ds, rest)
    requires forall a :: 0 <= a < |rest| ==> ds[i].counter < ds[rest[a]].counter
    ensures IncreasingCounters(ds, [i] + rest)
  {
    var acc := [i] + rest;
    forall a, b | 0 <= a < b < |acc| ensures ds[acc[a]].counter < ds[acc[b]].counter {
      assert acc[b] == rest[b - 1];
      assert a > 0 ==> acc[a] == rest[a - 1];
    }
  }

  lemma {:induction false} AcceptedIncreaseFrom(ds: seq<Delivery>, i: nat, reply: Reply, last: Option<nat>)
    requires BoundedReordering(ds) && i <= |ds|
    requires last.Some? ==> last.value < i && reply == ReplyTo(ds[last.value])
    ensures IncreasingCounters(ds, Accepted(reply, ds, i))
    ensures last.Some? ==>
              forall a :: 0 <= a < |Accepted(reply, ds, i)| ==>
                            ds[last.value].counter < ds[Accepted(reply, ds, i)[a]].counter
    decreases |ds| - i
  {
    if i < |ds| {
      if ReplyIsNewer(reply, ds[i].counter % SEQ_MODULUS, ds[i].uptime) {
        if last.Some? {
          AcceptedIsLarger(ds, last.value, i);
        }
        AcceptedIncreaseFrom(ds, i + 1, ReplyTo(ds[i]), Some(i));
        var rest := Accepted(ReplyTo(ds[i]), ds, i + 1);
        PrependAccepted(ds, i, rest);
        assert Accepted(reply, ds, i) == [i] + rest;
      } else {
        AcceptedIncreaseFrom(ds, i + 1, reply, last);
      }
    }
  }

  /** Newer than everything that arrived before. */
  ghost predicate IsFreshest(ds: seq<Delivery>, i: nat) {
    i < |ds| && forall j :: 0 <= j < i ==> ds[j].counter < ds[i].counter
  }

  /** A delivery is handed to the application exactly when its counter exceeds that of every delivery
      before it, so what the application sees is strictly increasing in the server's counter and
      always ends with the newest notification that arrived. */
  lemma AcceptedAreExactlyTheFreshest(ds: seq<Delivery>)
    requires Network(ds)
    ensures var acc := Accepted(INITIAL_REPLY, ds, 0);
            && (forall i: nat :: i in acc <==> IsFreshest(ds, i))
            && IncreasingCounters(ds, acc)
  {
    AcceptedIncrease(ds, INITIAL_REPLY);
    if ds != [] {
      AcceptedFrom(ds, 1, 0);
      assert Accepted(INITIAL_REPLY, ds, 0) == [0] + Accepted(ReplyTo(ds[0]), ds, 1);
    }
  }

  function ReplyTo(d: Delivery): Reply {
    Reply(d.counter % SEQ_MODULUS, d.uptime)
  }

  /** Against the newest delivery so far, the test accepts exactly the larger counters. */
  lemma AcceptsExactlyLarger(ds: seq<Delivery>, last: nat, i: nat)
    requires Network(ds) && last < i < |ds|
    ensures ReplyIsNewer(ReplyTo(ds[last]), ds[i].counter % SEQ_MODULUS, ds[i].uptime)
            <==> ds[last].counter < ds[i].counter
  {
    var c1, c2 := ds[last].counter, ds[i].counter;
    if -SEQ_HALF < c2 - c1 < SEQ_HALF {
      NewerByCounter(c1, c2);
    }
  }

  /** The state between deliveries: `last` is the newest delivery among the first `i`. */
  lemma {:induction false} AcceptedFrom(ds: seq<Delivery>, i: nat, last: nat)
    requires Network(ds) && last < i <= |ds|
    requires IsFreshest(ds, last) && forall j :: 0 <= j < i ==> ds[j].counter <= ds[last].counter
    ensures forall j: nat :: j in Accepted(ReplyTo(ds[last]), ds, i) <==> i <= j && IsFreshest(ds, j)
    decreases |ds| - i
  {
    if i < |ds| {
      AcceptsExactlyLarger(ds, last, i);
      var accepts := ds[last].counter < ds[i].counter;
      assert IsFreshest(ds, i) <==> accepts;
      AcceptedFrom(ds, i + 1, if accepts then i else last);
      if accepts {
        assert Accepted(ReplyTo(ds[last]), ds, i) == [i] + Accepted(ReplyTo(ds[i]), ds, i + 1);
      }
    }
  }
}
