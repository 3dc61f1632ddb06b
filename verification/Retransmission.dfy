/** Retransmission of confirmable requests: `golioth_coap_pending_cycle` and the timing loop of
    `golioth_coap_req_poll_prepare`, on the wrapping 32-bit millisecond clock. */
module Retransmission {
  import opened Basics
  import opened Machine32

  /** The number of retransmissions `golioth_coap_req_schedule` allows. */
  const MAX_RETRIES: nat := 3

  /** The drawn initial acknowledgement timeout; fifteen of them must fit a signed word. */
  type AckTimeout = t: nat | 0 < t && 15 * t < 0x8000_0000 witness 1

  /** `struct golioth_coap_pending`. */
  datatype Pending = Pending(t0: uint32, timeout: uint32, retries: nat)

  /** `golioth_coap_pending_init`. */
  function InitPending(now: uint32): Pending {
    Pending(now, 0, MAX_RETRIES)
  }

  /** `golioth_coap_pending_cycle`: the next transmission period, or None when exhausted. */
  function Cycle(p: Pending, ack: AckTimeout): Option<Pending> {
    if p.timeout == 0 then Some(p.(timeout := ack))
    else if p.retries == 0 then None
    else Some(Pending(U32(p.t0 + p.timeout), U32(p.timeout * 2), p.retries - 1))
  }

  /** The signed time left of the current period, as line 678 computes it. */
  function TimeLeft(p: Pending, now: uint32): int {
    I32(I32(U32(p.t0 + p.timeout)) - I32(now))
  }

  datatype PollResult = Expired | Waiting(pending: Pending, timeLeft: int, send: bool)

  /** What the loop of `golioth_coap_req_poll_prepare` ends with. */
  function Poll(p: Pending, ack: AckTimeout, now: uint32): PollResult
    decreases p.retries, if p.timeout == 0 then 1 else 0
  {
    if TimeLeft(p, now) > 0 then Waiting(p, TimeLeft(p, now), false)
    else
      match Cycle(p, ack)
      case None => Expired
      case Some(q) =>
        match Poll(q, ack, now)
        case Expired => Expired
        case Waiting(r, left, _) => Waiting(r, left, true)
  }

  /** A poll that does not drop the request leaves a strictly positive remaining time. */
  lemma {:induction false} WaitingIsPositive(p: Pending, ack: AckTimeout, now: uint32)
    ensures Poll(p, ack, now).Waiting? ==>
              && 0 < Poll(p, ack, now).timeLeft == TimeLeft(Poll(p, ack, now).pending, now)
              && Poll(p, ack, now).timeLeft < TWO31
    decreases p.retries, if p.timeout == 0 then 1 else 0
  {
    if TimeLeft(p, now) <= 0 && Cycle(p, ack).Some? {
      WaitingIsPositive(Cycle(p, ack).value, ack, now);
    }
  }

  /** The state of a request scheduled at true time `s`, drawn timeout `ack`, in whose life `n`
      transmission periods have begun: none at first, then one initial and up to three repeats. */
  ghost function StateAt(s: nat, ack: AckTimeout, n: nat): Pending
    requires n <= 4
  {
    if n == 0 then InitPending(U32(s))
    else RetryState(s, ack, n - 1)
  }

  /** After k retries t0 has advanced by ack * (2^k - 1) and the timeout is ack * 2^k. */
  ghost function RetryState(s: nat, ack: AckTimeout, k: nat): Pending
    requires k <= MAX_RETRIES
  {
    Pow2Small();
    PeriodIsSmall(ack, Pow2(k));
    Pending(U32(s + ack * (Pow2(k) - 1)), ack * Pow2(k), MAX_RETRIES - k)
  }

  lemma Pow2Small()
    ensures Pow2(0) == 1 && Pow2(1) == 2 && Pow2(2) == 4 && Pow2(3) == 8 && Pow2(4) == 16
  {
    assert Pow2(2) == 2 * Pow2(1);
    assert Pow2(3) == 2 * Pow2(2);
    assert Pow2(4) == 2 * Pow2(3);
  }

  /** The true time at which period `n` ends; period 4 ends at s + 15 * ack. */
  ghost function Deadline(s: nat, ack: AckTimeout, n: nat): nat {
    s + ack * (Pow2(n) - 1)
  }

  /** The period a request belongs to `age` milliseconds after it was scheduled; 5 is "dropped". */
  function Level(age: nat, ack: AckTimeout): nat {
    if age < ack then 1 else if age < 3 * ack then 2
    else if age < 7 * ack then 3 else if age < 15 * ack then 4 else 5
  }

  lemma Doubling(ack: nat, p: nat)
    requires p >= 1
    ensures ack * (p - 1) + ack * p == ack * (2 * p - 1)
    ensures ack * p * 2 == ack * (2 * p)
  {
  }

  lemma PeriodIsSmall(ack: AckTimeout, p: nat)
    requires p <= 16
    ensures ack * p < TWO32
  {
    assert ack * p <= ack * 16;
  }

  lemma RetryCycle(s: nat, ack: AckTimeout, k: nat)
    requires k <= MAX_RETRIES
    ensures Cycle(RetryState(s, ack, k), ack)
            == if k == MAX_RETRIES then None else Some(RetryState(s, ack, k + 1))
  {
    Pow2Small();
    var p := RetryState(s, ack, k);
    var power := Pow2(k);
    assert 1 <= power <= 8;
    assert p.timeout == ack * power > 0;
    if k < MAX_RETRIES {
      Doubling(ack, power);
      PeriodIsSmall(ack, 2 * power);
      WrapSum(s + ack * (power - 1), p.timeout);
      assert Pow2(k + 1) == 2 * power;
      assert U32(p.t0 + p.timeout) == U32(s + ack * (Pow2(k + 1) - 1));
      assert U32(p.timeout * 2) == ack * Pow2(k + 1);
    }
  }

  lemma CycleClosedForm(s: nat, ack: AckTimeout, n: nat)
    requires n <= 4
    ensures Cycle(StateAt(s, ack, n), ack) == if n == 4 then None else Some(StateAt(s, ack, n + 1))
  {
    if 1 <= n {
      RetryCycle(s, ack, n - 1);
    }
  }

  /** The word t0 + timeout is the deadline's low word. */
  lemma DeadlineWord(s: nat, ack: AckTimeout, n: nat)
    requires n <= 4
    ensures var p := StateAt(s, ack, n); U32(p.t0 + p.timeout) == U32(Deadline(s, ack, n))
  {
    if n == 0 {
      WrapSum(s, 0);
    } else {
      var p := RetryState(s, ack, n - 1);
      WrapSum(s + ack * (Pow2(n - 1) - 1), p.timeout);
      Doubling(ack, Pow2(n - 1));
      assert Pow2(n) == 2 * Pow2(n - 1);
    }
  }

  lemma DeadlineBound(s: nat, ack: AckTimeout, n: nat)
    requires n <= 4
    ensures s <= Deadline(s, ack, n) <= s + 15 * ack
  {
    Pow2Small();
    var p := Pow2(n);
    assert 1 <= p <= 16;
    assert ack * (16 - p) >= 0;
    assert ack * (p - 1) >= 0;
  }

  lemma TimeLeftClosedForm(s: nat, ack: AckTimeout, n: nat, now: nat)
    requires n <= 4 && s <= now < s + TWO31
    ensures TimeLeft(StateAt(s, ack, n), U32(now)) == Deadline(s, ack, n) - now
  {
    DeadlineWord(s, ack, n);
    DeadlineBound(s, ack, n);
    SignedDifference(Deadline(s, ack, n), now);
  }

  lemma LevelByDeadline(s: nat, ack: AckTimeout, n: nat, now: nat)
    requires n <= 4 && s <= now
    ensures now < Deadline(s, ack, n) <==> Level(now - s, ack) <= n
  {
    Pow2Small();
    assert n == 0 || n == 1 || n == 2 || n == 3 || n == 4;
  }

  /** What a poll does to a request in period `n` that should be in `level`. */
  ghost function PollOutcome(s: nat, ack: AckTimeout, n: nat, level: nat, now: nat): PollResult
    requires n <= 4 && level <= 5
  {
    if n < level then
      if level == 5 then Expired
      else Waiting(StateAt(s, ack, level), Deadline(s, ack, level) - now, true)
    else Waiting(StateAt(s, ack, n), Deadline(s, ack, n) - now, false)
  }

  /** One poll of the request, whatever periods it skips: it lands in the period its age demands,
      sends exactly when that period is new, and drops the request exactly from s + 15 * ack on. */
  lemma {:induction false} PollClosedForm(s: nat, ack: AckTimeout, n: nat, now: nat)
    requires n <= 4 && s <= now < s + TWO31
    ensures Poll(StateAt(s, ack, n), ack, U32(now))
            == PollOutcome(s, ack, n, Level(now - s, ack), now)
    decreases 4 - n
  {
    var p := StateAt(s, ack, n);
    assert TimeLeft(p, U32(now)) == Deadline(s, ack, n) - now by { TimeLeftClosedForm(s, ack, n, now); }
    assert Cycle(p, ack) == if n == 4 then None else Some(StateAt(s, ack, n + 1)) by {
      CycleClosedForm(s, ack, n);
    }
    LevelByDeadline(s, ack, n, now);
    if TimeLeft(p, U32(now)) <= 0 {
      if n < 4 {
        PollClosedForm(s, ack, n + 1, now);
      }
    }
  }

  /** What a run of polls does to one unanswered request. */
  datatype History = History(sentAt: seq<nat>, droppedAt: Option<nat>)

  /** Polls an unanswered request at the given true times until it is dropped; `i` counts polls. */
  ghost function Unanswered(p: Pending, ack: AckTimeout, polls: seq<nat>, i: nat): History
    requires i <= |polls|
    decreases |polls| - i
  {
    if i == |polls| then History([], None)
    else
      match Poll(p, ack, U32(polls[i]))
      case Expired => History([], Some(i))
      case Waiting(q, _, send) =>
        var rest := Unanswered(q, ack, polls, i + 1);
        if send then rest.(sentAt := [i] + rest.sentAt) else rest
  }

  /** Polls in clock order, the first no later than `gap` after scheduling and each no later than
      `gap` after its predecessor, where gap + 15 * ack stays below half the clock's range. */
  ghost predicate PollSchedule(s: nat, ack: AckTimeout, gap: nat, polls: seq<nat>) {
    && gap + 15 * ack < TWO31
    && (polls != [] ==> s <= polls[0] <= s + gap)
    && forall i :: 0 < i < |polls| ==> polls[i - 1] <= polls[i] <= polls[i - 1] + gap
  }

  /** The first poll at or after s + 15 * ack. */
  ghost predicate IsFirstLate(s: nat, ack: AckTimeout, polls: seq<nat>, i: nat) {
    && i < |polls| && s + 15 * ack <= polls[i]
    && forall j :: 0 <= j < i ==> polls[j] < s + 15 * ack
  }

  /** Poll i transmits exactly when no earlier poll fell into the same or a later period. */
  ghost predicate BeginsPeriod(s: nat, ack: AckTimeout, polls: seq<nat>, i: nat) {
    && i < |polls| && s <= polls[i] < s + 15 * ack
    && (i == 0 || (s <= polls[i - 1] && Level(polls[i - 1] - s, ack) < Level(polls[i] - s, ack)))
  }

  /** For every poll schedule an unanswered request is dropped at the first poll at or after
      s + 15 * ack and at no other, and it is transmitted exactly at the polls that begin one of
      its four periods. */
  lemma UnansweredRequest(s: nat, ack: AckTimeout, gap: nat, polls: seq<nat>)
    requires PollSchedule(s, ack, gap, polls)
    ensures var h := Unanswered(InitPending(U32(s)), ack, polls, 0);
            && (forall i: nat :: h.droppedAt == Some(i) <==> IsFirstLate(s, ack, polls, i))
            && (forall i: nat :: i in h.sentAt <==> BeginsPeriod(s, ack, polls, i))
            && (forall a, b :: 0 <= a < b < |h.sentAt| ==> h.sentAt[a] < h.sentAt[b])
            && |h.sentAt| <= 4
  {
    UnansweredFrom(s, ack, gap, polls, 0, 0);
  }

  /** The invariant between polls: the request is in the period of the last poll. */
  ghost predicate InPeriod(s: nat, ack: AckTimeout, polls: seq<nat>, i: nat, n: nat) {
    && i <= |polls| && n <= 4
    && (i == 0 ==> n == 0)
    && (i > 0 ==> s <= polls[i - 1] < s + 15 * ack && n == Level(polls[i - 1] - s, ack))
    && (forall j :: 0 <= j < i ==> polls[j] < s + 15 * ack)
  }

  /** What the polls from index `i` on must do to a request that is in period `n`. */
  ghost predicate Meets(h: History, s: nat, ack: AckTimeout, polls: seq<nat>, i: nat, n: nat) {
    && (forall j: nat :: h.droppedAt == Some(j) <==> IsFirstLate(s, ack, polls, j))
    && (forall j: nat :: j in h.sentAt <==> i <= j && BeginsPeriod(s, ack, polls, j))
    && (forall a, b :: 0 <= a < b < |h.sentAt| ==> h.sentAt[a] < h.sentAt[b])
    && |h.sentAt| + n <= 4
  }

  lemma ExtendHistory(h: History, s: nat, ack: AckTimeout, polls: seq<nat>, i: nat, n: nat, level: nat)
    requires i < |polls| && InPeriod(s, ack, polls, i, n) && InPeriod(s, ack, polls, i + 1, level)
    requires n <= level && Meets(h, s, ack, polls, i + 1, level)
    ensures Meets(if n < level then h.(sentAt := [i] + h.sentAt) else h, s, ack, polls, i, n)
  {
    assert BeginsPeriod(s, ack, polls, i) <==> n < level;
    if n < level {
      var t := [i] + h.sentAt;
      forall a, b | 0 <= a < b < |t| ensures t[a] < t[b] {
        assert t[b] == h.sentAt[b - 1];
        assert h.sentAt[b - 1] in h.sentAt;
        if a > 0 {
          assert t[a] == h.sentAt[a - 1];
        }
      }
    }
  }

  lemma {:induction false} UnansweredFrom(s: nat, ack: AckTimeout, gap: nat, polls: seq<nat>,
                                          i: nat, n: nat)
    requires PollSchedule(s, ack, gap, polls) && InPeriod(s, ack, polls, i, n)
    ensures Meets(Unanswered(StateAt(s, ack, n), ack, polls, i), s, ack, polls, i, n)
    decreases |polls| - i
  {
    if i < |polls| {
      var now := polls[i];
      var level := Level(now - s, ack);
      assert s <= now < s + TWO31 && n <= level;
      var p := StateAt(s, ack, n);
      assert Poll(p, ack, U32(now)) == PollOutcome(s, ack, n, level, now) by {
        PollClosedForm(s, ack, n, now);
      }
      if level == 5 {
        LatePollsStayLate(s, ack, gap, polls, i);
        assert Unanswered(p, ack, polls, i) == History([], Some(i));
      } else {
        UnansweredFrom(s, ack, gap, polls, i + 1, level);
        ExtendHistory(Unanswered(StateAt(s, ack, level), ack, polls, i + 1), s, ack, polls, i, n, level);
      }
    }
  }

  lemma {:induction false} LatePollsStayLate(s: nat, ack: AckTimeout, gap: nat, polls: seq<nat>,
                                             i: nat)
    requires PollSchedule(s, ack, gap, polls)
    requires i < |polls| && s + 15 * ack <= polls[i]
    ensures forall j :: i <= j < |polls| ==> s + 15 * ack <= polls[j]
    decreases |polls| - i
  {
    if i + 1 < |polls| {
      LatePollsStayLate(s, ack, gap, polls, i + 1);
    }
  }
}
