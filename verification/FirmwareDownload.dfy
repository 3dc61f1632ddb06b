/** One download session of the firmware updater (`fw_write_block_cb`, `fw_download_end_cb`,
    `block_retry_timer_expiry`) on top of blockwise download: failed blocks are retried from a timer,
    each stored block is appended to flash and fed to the hash. */
module FirmwareDownload {
  import opened Basics
  import opened BlockDownload

  /** FW_MAX_BLOCK_RESUME_BEFORE_FAIL. */
  const MAX_RETRIES: nat := 15

  /** The outstanding activity of a session. */
  datatype Phase =
    | Requested(idx: nat)  // a block request is enqueued
    | TimerArmed           // the one-shot retry timer runs
    | Stalled              // the restart was refused and its status ignored: nothing is outstanding
    | NotStarted           // the very first request was refused
    | Complete             // _download_complete was given

  /** `struct download_progress_context`, the flash stream and the outstanding activity. `numbers`
      lists the blocks stored so far by the number under which the server holds them, `attempts`
      counts block requests, `completions` the gives of _download_complete. */
  datatype Session = Session(
    phase: Phase,
    resumeIdx: nat,
    retries: nat,
    bytesDownloaded: nat,
    result: Status,
    hashed: seq<Byte>,
    flash: seq<Byte>,
    numbers: seq<nat>,
    attempts: nat,
    completions: nat)

  /** What flash does with a block: `prepare` is the status of initialising the image area (block 0
      only), `torn` whatever a failing write leaves behind. */
  datatype Flash = Flash(prepareOk: bool, erased: bool, writeOk: bool, torn: seq<Byte>)

  const GOOD_FLASH := Flash(true, true, true, [])

  /** The session as the update loop starts it (block 0, all counters cleared). */
  function Start(flash: seq<Byte>, enqueue: Status): Session {
    Session(if enqueue.OK? then Requested(0) else NotStarted, 0, 0, 0, enqueue, [], flash, [], 1, 0)
  }

  /** `fw_write_block_cb`, called for index `idx` with the block the server holds as number `d`: its
      status and its effects. */
  function WriteBlock(s: Session, idx: nat, d: nat, payload: seq<Byte>, f: Flash): (Status, Session) {
    if idx == 0 && !f.prepareOk then
      (IO, if f.erased then s.(flash := []) else s)
    else
      var area := if idx == 0 then [] else s.flash;
      if !f.writeOk then (IO, s.(flash := area + f.torn))
      else (OK, s.(retries := 0, bytesDownloaded := s.bytesDownloaded + |payload|,
                   hashed := s.hashed + payload, flash := area + payload, numbers := s.numbers + [d]))
  }

  /** `fw_download_end_cb`. */
  function EndDownload(s: Session, status: Status, idx: nat): Session {
    if status.OK? || status.IO? || s.retries >= MAX_RETRIES
    then s.(result := status, completions := s.completions + 1, phase := Complete)
    else s.(retries := s.retries + 1, resumeIdx := idx, phase := TimerArmed)
  }

  /** What happens to a session. The server holds `image` as a list of blocks. An answer that is OK
      carries block `delivered`, which need not be the one asked for. */
  datatype Action =
    | Answered(status: Status, delivered: nat, flash: Flash, enqueue: Status)
    | TimerExpires(enqueue: Status)

  /** The answer to an outstanding request: `on_block_rcvd` with the updater's two callbacks. */
  function OnAnswer(s: Session, image: seq<seq<Byte>>, status: Status, d: nat, f: Flash, enqueue: Status): Session
    requires s.phase.Requested? && (status.OK? ==> d < |image|)
  {
    var idx := s.phase.idx;
    var isLast := status.OK? && d == |image| - 1;
    var (written, t) := if status.OK? then WriteBlock(s, idx, d, image[d], f) else (status, s);
    match OnBlock(idx, false, status, isLast, written, enqueue)
    case Continue => t.(phase := Requested(idx + 1), attempts := t.attempts + 1)
    case Ended(st, i, _) =>
      // a refused request for the next block was an attempt, too
      EndDownload(if i == idx + 1 then t.(attempts := t.attempts + 1) else t, st, i)
  }

  /** `block_retry_timer_expiry`. */
  function OnTimer(s: Session, enqueue: Status): Session {
    s.(attempts := s.attempts + 1, phase := if enqueue.OK? then Requested(s.resumeIdx) else Stalled)
  }

  /** The events that can happen: the engine hands over a block of the image that is deliverable. */
  predicate Possible(s: Session, image: seq<seq<Byte>>, a: Action) {
    match a
    case Answered(status, d, _, _) =>
      s.phase.Requested? && (status.OK? ==> d < |image| && Deliverable(s.phase.idx, d))
    case TimerExpires(_) => s.phase.TimerArmed?
  }

  function Next(s: Session, image: seq<seq<Byte>>, a: Action): Session {
    if !Possible(s, image, a) then s
    else
      match a
      case Answered(status, d, f, enqueue) => OnAnswer(s, image, status, d, f, enqueue)
      case TimerExpires(enqueue) => OnTimer(s, enqueue)
  }

  ghost function Concat(blocks: seq<seq<Byte>>): seq<Byte> {
    if blocks == [] then [] else Concat(blocks[..|blocks| - 1]) + blocks[|blocks| - 1]
  }

  ghost predicate Within(image: seq<seq<Byte>>, numbers: seq<nat>) {
    forall i :: 0 <= i < |numbers| ==> numbers[i] < |image|
  }

  /** The blocks of the image with these numbers. */
  ghost function Picked(image: seq<seq<Byte>>, numbers: seq<nat>): seq<seq<Byte>>
    requires Within(image, numbers)
  {
    seq(|numbers|, i requires 0 <= i < |numbers| => image[numbers[i]])
  }

  /** 0, 1, 2, ...: no gap and no repeat. */
  ghost predicate InOrder(numbers: seq<nat>) {
    forall i :: 0 <= i < |numbers| ==> numbers[i] == i
  }

  /** Flash itself reported an error: the only way its content can differ from the blocks stored. */
  ghost predicate FlashFailed(s: Session) {
    s.phase.Complete? && s.result.IO?
  }

  /** What was stored: blocks of the image that were deliverable when they came, the final block at
      most once and then at the end. */
  ghost predicate NumbersOk(numbers: seq<nat>, n: nat, complete: bool) {
    forall i :: 0 <= i < |numbers| ==>
        && numbers[i] < n && Deliverable(i, numbers[i])
        && (numbers[i] == n - 1 ==> i == |numbers| - 1 && complete)
  }

  /** The blocks stored, and no other bytes, went into the hash; and into flash, from the moment the
      first is there. The next block asked for is always the one that follows as many as were stored. */
  ghost predicate Inv(s: Session, image: seq<seq<Byte>>) {
    && |image| > 0
    && NumbersOk(s.numbers, |image|, s.phase.Complete?)
    && Within(image, s.numbers)
    && s.hashed == Concat(Picked(image, s.numbers))
    && s.bytesDownloaded == |s.hashed|
    && (s.numbers != [] && !FlashFailed(s) ==> s.flash == s.hashed)
    && s.retries <= MAX_RETRIES
    && (s.phase.Requested? ==> s.phase.idx == |s.numbers|)
    && (s.phase.TimerArmed? ==> s.resumeIdx == |s.numbers|)
    && (s.phase.Complete? && s.result.OK? ==> s.numbers != [] && s.numbers[|s.numbers| - 1] == |image| - 1)
    // attempts: at most 16 for each stored block, one for each retry, one in hand
    && s.attempts <= 16 * |s.numbers| + s.retries + (if s.phase.TimerArmed? then 0 else 1)
    && (s.numbers != [] && s.numbers[|s.numbers| - 1] == |image| - 1 ==> s.attempts <= 16 * |s.numbers|)
    && s.completions == (if s.phase.Complete? then 1 else 0)
    && (s.phase.NotStarted? ==> s.numbers == [] && s.attempts == 1 && !s.result.OK?)
  }

  lemma ConcatNext(image: seq<seq<Byte>>, numbers: seq<nat>, d: nat)
    requires Within(image, numbers) && d < |image|
    ensures Within(image, numbers + [d])
    ensures Concat(Picked(image, numbers + [d])) == Concat(Picked(image, numbers)) + image[d]
  {
    var blocks := Picked(image, numbers + [d]);
    assert blocks[..|numbers|] == Picked(image, numbers);
  }

  lemma StartInv(flash: seq<Byte>, enqueue: Status, image: seq<seq<Byte>>)
    requires |image| > 0
    ensures Inv(Start(flash, enqueue), image)
  {
  }

  /** Every event keeps the invariant, whatever the statuses; and nothing happens to a session that
      has completed or never started. */
  lemma StepKeepsInv(s: Session, image: seq<seq<Byte>>, a: Action)
    requires Inv(s, image)
    ensures Inv(Next(s, image, a), image)
    ensures s.phase.Complete? || s.phase.NotStarted? ==> Next(s, image, a) == s
  {
    if a.Answered? && Possible(s, image, a) {
      if a.status.OK? {
        BlockKeepsInv(s, image, a.delivered, a.flash, a.enqueue);
      } else {
        FailureKeepsInv(s, image, a);
      }
    }
  }

  /** An answer that is a failure stores nothing. */
  lemma FailureKeepsInv(s: Session, image: seq<seq<Byte>>, a: Action)
    requires Inv(s, image) && s.phase.Requested? && a.Answered? && !a.status.OK?
    ensures Inv(Next(s, image, a), image)
  {
  }

  /** What the block callback does to the stored bytes. */
  lemma WriteKeepsBytes(s: Session, image: seq<seq<Byte>>, d: nat, f: Flash)
    requires Inv(s, image) && s.phase.Requested? && d < |image|
    ensures Within(image, s.numbers + [d])
    ensures var (st, t) := WriteBlock(s, s.phase.idx, d, image[d], f);
            if st.OK? then
              && t == s.(retries := 0, bytesDownloaded := |t.hashed|, numbers := s.numbers + [d],
                         hashed := Concat(Picked(image, s.numbers + [d])), flash := t.hashed)
            else st.IO? && t == s.(flash := t.flash)
  {
    ConcatNext(image, s.numbers, d);
    assert s.numbers == [] ==> s.hashed == [];
  }

  lemma NumbersSnoc(numbers: seq<nat>, n: nat, d: nat, complete: bool)
    requires NumbersOk(numbers, n, false) && d < n && Deliverable(|numbers|, d)
    requires d == n - 1 ==> complete
    ensures NumbersOk(numbers + [d], n, complete)
  {
  }

  /** An answer with a block. */
  lemma BlockKeepsInv(s: Session, image: seq<seq<Byte>>, d: nat, f: Flash, enqueue: Status)
    requires Inv(s, image) && s.phase.Requested? && d < |image| && Deliverable(s.phase.idx, d)
    ensures Inv(Next(s, image, Answered(OK, d, f, enqueue)), image)
  {
    WriteKeepsBytes(s, image, d, f);
    NumbersSnoc(s.numbers, |image|, d, d == |image| - 1);
    if !WriteBlock(s, s.phase.idx, d, image[d], f).0.OK? {
      FlashErrorKeepsInv(s, image, d, f, enqueue);
    }
  }

  lemma FlashErrorKeepsInv(s: Session, image: seq<seq<Byte>>, d: nat, f: Flash, enqueue: Status)
    requires Inv(s, image) && s.phase.Requested? && d < |image| && Deliverable(s.phase.idx, d)
    requires WriteBlock(s, s.phase.idx, d, image[d], f).0.IO?
    ensures Inv(Next(s, image, Answered(OK, d, f, enqueue)), image)
  {
    WriteKeepsBytes(s, image, d, f);
  }

  ghost function Run(s: Session, image: seq<seq<Byte>>, actions: seq<Action>): (t: Session)
    requires Inv(s, image)
    ensures Inv(t, image)
    decreases |actions|
  {
    if actions == [] then s
    else
      StepKeepsInv(s, image, actions[0]);
      Run(Next(s, image, actions[0]), image, actions[1..])
  }

  /** The event stores a block: one is handed over, and flash takes it. */
  predicate Stores(s: Session, image: seq<seq<Byte>>, a: Action) {
    && Possible(s, image, a) && a.Answered? && a.status.OK?
    && (s.phase.idx == 0 ==> a.flash.prepareOk) && a.flash.writeOk
  }

  /** The block stored is not the one asked for. */
  predicate Misdelivered(s: Session, image: seq<seq<Byte>>, a: Action) {
    Stores(s, image, a) && a.delivered != s.phase.idx
  }

  /** Every block stored in the run is the one that was asked for. */
  ghost predicate AsRequested(s: Session, image: seq<seq<Byte>>, actions: seq<Action>)
    decreases |actions|
  {
    actions == []
    || (!Misdelivered(s, image, actions[0]) && AsRequested(Next(s, image, actions[0]), image, actions[1..]))
  }

  /** A step stores the block delivered, or nothing. */
  lemma StepNumbers(s: Session, image: seq<seq<Byte>>, a: Action)
    requires Inv(s, image)
    ensures Next(s, image, a).numbers == if Stores(s, image, a) then s.numbers + [a.delivered] else s.numbers
  {
  }

  lemma {:induction false} NumbersGrow(s: Session, image: seq<seq<Byte>>, actions: seq<Action>)
    requires Inv(s, image)
    ensures s.numbers <= Run(s, image, actions).numbers
    decreases |actions|
  {
    if actions != [] {
      StepKeepsInv(s, image, actions[0]);
      StepNumbers(s, image, actions[0]);
      NumbersGrow(Next(s, image, actions[0]), image, actions[1..]);
    }
  }

  /** The numbers of the stored blocks are 0..k-1 exactly when every answer whose block was stored
      carried the block asked for. */
  lemma {:induction false} InOrderExactlyWhenAsRequested(s: Session, image: seq<seq<Byte>>, actions: seq<Action>)
    requires Inv(s, image) && InOrder(s.numbers)
    ensures InOrder(Run(s, image, actions).numbers) <==> AsRequested(s, image, actions)
    decreases |actions|
  {
    if actions != [] {
      var t := Next(s, image, actions[0]);
      StepKeepsInv(s, image, actions[0]);
      StepNumbers(s, image, actions[0]);
      if Misdelivered(s, image, actions[0]) {
        NumbersGrow(t, image, actions[1..]);
        assert Run(s, image, actions).numbers[|s.numbers|] == actions[0].delivered;
      } else {
        InOrderExactlyWhenAsRequested(t, image, actions[1..]);
      }
    }
  }

  lemma PickedInOrder(image: seq<seq<Byte>>, numbers: seq<nat>)
    requires Within(image, numbers) && InOrder(numbers)
    ensures |numbers| <= |image| && Picked(image, numbers) == image[..|numbers|]
  {
    if |numbers| > 0 {
      assert numbers[|numbers| - 1] < |image|;
    }
  }

  /** Over any pattern of block failures, refused requests and resumed downloads, and whatever blocks
      the engine hands over: the hash and flash hold exactly the blocks stored; a session that ends
      with OK has stored the final block last, in at most as many blocks as the image has; at most
      sixteen requests are made for each block; completion is signalled at most once.
      The blocks stored are 0..k-1, and on success the whole image, exactly when each of them was the
      one asked for. */
  lemma SessionIsExact(flash: seq<Byte>, enqueue: Status, image: seq<seq<Byte>>, actions: seq<Action>)
    requires |image| > 0
    ensures Inv(Start(flash, enqueue), image)
    ensures var s := Run(Start(flash, enqueue), image, actions);
            && Within(image, s.numbers)
            && s.hashed == Concat(Picked(image, s.numbers)) && s.bytesDownloaded == |s.hashed|
            && (s.numbers != [] && !FlashFailed(s) ==> s.flash == s.hashed)
            && s.attempts <= 16 * (|s.numbers| + 1)
            && s.completions <= 1 && (s.completions == 1 <==> s.phase.Complete?)
            && (s.phase.Complete? && s.result.OK? ==>
                  && 0 < |s.numbers| <= |image| && s.numbers[|s.numbers| - 1] == |image| - 1
                  && s.flash == s.hashed && s.attempts <= 16 * |image|)
    ensures var s := Run(Start(flash, enqueue), image, actions);
            && (InOrder(s.numbers) <==> AsRequested(Start(flash, enqueue), image, actions))
            && (InOrder(s.numbers) ==>
                  && |s.numbers| <= |image| && s.hashed == Concat(image[..|s.numbers|])
                  && s.attempts <= 16 * |image|
                  && (s.phase.Complete? && s.result.OK? ==> s.hashed == Concat(image) == s.flash))
  {
    StartInv(flash, enqueue, image);
    var s := Run(Start(flash, enqueue), image, actions);
    InOrderExactlyWhenAsRequested(Start(flash, enqueue), image, actions);
    if InOrder(s.numbers) {
      PickedInOrder(image, s.numbers);
      assert image[..|image|] == image;
    }
  }

  /** Blocks handed over one after the other, with no failure anywhere. */
  function Deliveries(numbers: seq<nat>): seq<Action> {
    if numbers == [] then []
    else [Answered(OK, numbers[0], GOOD_FLASH, OK)] + Deliveries(numbers[1..])
  }

  /** Nothing more can be said of the numbers than the invariant says: every list it allows is stored
      by some session. */
  lemma {:induction false} DeliveriesAreStored(s: Session, image: seq<seq<Byte>>, numbers: seq<nat>)
    requires Inv(s, image) && s.phase.Requested? && NumbersOk(s.numbers + numbers, |image|, true)
    ensures var t := Run(s, image, Deliveries(numbers));
            && t.numbers == s.numbers + numbers
            && (numbers != [] ==> t.flash == t.hashed)
            && (if numbers != [] && numbers[|numbers| - 1] == |image| - 1 then t.phase.Complete? && t.result.OK?
                else t.phase == Requested(|t.numbers|) && t.attempts == s.attempts + |numbers|)
    decreases |numbers|
  {
    if numbers != [] {
      var d, rest := numbers[0], numbers[1..];
      assert (s.numbers + numbers)[|s.numbers|] == d;
      var t := BlockStored(s, image, d);
      RunDelivery(s, image, numbers);
      assert t.numbers + rest == s.numbers + numbers;
      if t.phase.Requested? {
        DeliveriesAreStored(t, image, rest);
      } else {
        assert rest == [];
      }
    }
  }

  lemma RunDelivery(s: Session, image: seq<seq<Byte>>, numbers: seq<nat>)
    requires Inv(s, image) && numbers != []
    ensures var t := Next(s, image, Answered(OK, numbers[0], GOOD_FLASH, OK));
            Inv(t, image) && Run(s, image, Deliveries(numbers)) == Run(t, image, Deliveries(numbers[1..]))
  {
    RunCons(s, image, Answered(OK, numbers[0], GOOD_FLASH, OK), Deliveries(numbers[1..]));
  }

  /** So the condition of `SessionIsExact` matters: with an image of three blocks and a second answer
      to the request for block 0 while block 1 is asked for, the session ends with OK without ever
      having stored block 1. */
  lemma RepeatedBlockZero(flash: seq<Byte>, image: seq<seq<Byte>>, numbers: seq<nat>)
    requires |image| == 3 && numbers == [0, 0, 2]
    ensures Inv(Start(flash, OK), image)
    ensures var s := Run(Start(flash, OK), image, Deliveries(numbers));
            && s.phase.Complete? && s.result.OK? && s.numbers == numbers
            && s.flash == s.hashed == image[0] + image[0] + image[2]
  {
    StartInv(flash, OK, image);
    assert [] + numbers == numbers;
    DeliveriesAreStored(Start(flash, OK), image, numbers);
    PickedThree(image, numbers);
  }

  lemma PickedThree(image: seq<seq<Byte>>, numbers: seq<nat>)
    requires Within(image, numbers) && |numbers| == 3
    ensures Concat(Picked(image, numbers)) == image[numbers[0]] + image[numbers[1]] + image[numbers[2]]
  {
    var one, two := [numbers[0]], [numbers[0], numbers[1]];
    ConcatNext(image, [], numbers[0]);
    ConcatNext(image, one, numbers[1]);
    ConcatNext(image, two, numbers[2]);
    assert [] + one == one && one + [numbers[1]] == two && two + [numbers[2]] == numbers;
  }

  /** A block that is handed over and stored without any failure. */
  lemma BlockStored(s: Session, image: seq<seq<Byte>>, d: nat) returns (t: Session)
    requires Inv(s, image) && s.phase.Requested? && d < |image| && Deliverable(s.phase.idx, d)
    ensures t == Next(s, image, Answered(OK, d, GOOD_FLASH, OK)) && Inv(t, image)
    ensures t.numbers == s.numbers + [d] && t.flash == t.hashed == s.hashed + image[d] && t.retries == 0
    ensures if d == |image| - 1 then t.phase.Complete? && t.result.OK? && t.attempts == s.attempts
            else t.phase == Requested(s.phase.idx + 1) && t.attempts == s.attempts + 1
  {
    t := Next(s, image, Answered(OK, d, GOOD_FLASH, OK));
    BlockKeepsInv(s, image, d, GOOD_FLASH, OK);
    WriteKeepsBytes(s, image, d, GOOD_FLASH);
    ConcatNext(image, s.numbers, d);
  }

  /** A session need not end: as long as a block 0 is repeated, the next block is asked for, and no number
      of requests is the last. */
  lemma RepeatedZerosGoOn(flash: seq<Byte>, image: seq<seq<Byte>>, k: nat)
    requires |image| >= 2
    ensures Inv(Start(flash, OK), image)
    ensures var s := Run(Start(flash, OK), image, Deliveries(seq(k, _ => 0)));
            s.phase == Requested(k) && s.attempts == k + 1 && s.numbers == seq(k, _ => 0)
  {
    StartInv(flash, OK, image);
    var zeros: seq<nat> := seq(k, _ => 0);
    assert [] + zeros == zeros;
    DeliveriesAreStored(Start(flash, OK), image, zeros);
  }

  lemma RunCons(s: Session, image: seq<seq<Byte>>, a: Action, rest: seq<Action>)
    requires Inv(s, image)
    ensures Inv(Next(s, image, a), image)
    ensures Run(s, image, [a] + rest) == Run(Next(s, image, a), image, rest)
  {
    StepKeepsInv(s, image, a);
    assert ([a] + rest)[1..] == rest;
  }

  /** A session that has completed, or never started, stays exactly as it is, so it never gives
      another completion that a later session could take for its own. */
  lemma {:induction false} CompletedIsFinal(s: Session, image: seq<seq<Byte>>, actions: seq<Action>)
    requires Inv(s, image) && (s.phase.Complete? || s.phase.NotStarted?)
    ensures Run(s, image, actions) == s
    decreases |actions|
  {
    if actions != [] {
      StepKeepsInv(s, image, actions[0]);
      CompletedIsFinal(s, image, actions[1..]);
    }
  }

  /** A block that keeps failing: `n` rounds of a failed answer and an expiry of the timer. */
  function FailingRounds(status: Status, n: nat): seq<Action> {
    if n == 0 then []
    else [Answered(status, 0, GOOD_FLASH, OK), TimerExpires(OK)] + FailingRounds(status, n - 1)
  }

  /** The bound is reached: a block that keeps failing is asked for sixteen times, no fewer, before
      the session completes with the failure. */
  lemma {:induction false} SixteenTriesPerBlock(s: Session, image: seq<seq<Byte>>, status: Status)
    requires Inv(s, image) && s.phase.Requested? && s.retries == 0 && !status.OK? && !status.IO?
    ensures var t := Run(s, image, FailingRounds(status, MAX_RETRIES));
            && t.phase.Requested? && t.attempts == s.attempts + 15
            && Next(t, image, Answered(status, 0, GOOD_FLASH, OK)).phase.Complete?
            && Next(t, image, Answered(status, 0, GOOD_FLASH, OK)).result == status
  {
    RetriesAreSpent(s, image, status, MAX_RETRIES);
  }

  lemma {:induction false} RetriesAreSpent(s: Session, image: seq<seq<Byte>>, status: Status, n: nat)
    requires Inv(s, image) && s.phase.Requested? && s.retries + n <= MAX_RETRIES
    requires !status.OK? && !status.IO?
    ensures Run(s, image, FailingRounds(status, n)) ==
            s.(retries := s.retries + n, attempts := s.attempts + n,
               resumeIdx := if n == 0 then s.resumeIdx else s.phase.idx)
    decreases n
  {
    if n > 0 {
      var t := FailingRound(s, image, status);
      RunFailingRound(s, image, status, n);
      RetriesAreSpent(t, image, status, n - 1);
    }
  }

  lemma RunFailingRound(s: Session, image: seq<seq<Byte>>, status: Status, n: nat)
    requires Inv(s, image) && n > 0
    ensures var t := Next(Next(s, image, Answered(status, 0, GOOD_FLASH, OK)), image, TimerExpires(OK));
            && Inv(t, image)
            && Run(s, image, FailingRounds(status, n)) == Run(t, image, FailingRounds(status, n - 1))
  {
    var rest := FailingRounds(status, n - 1);
    var a, b := Answered(status, 0, GOOD_FLASH, OK), TimerExpires(OK);
    RunCons(s, image, a, [b] + rest);
    RunCons(Next(s, image, a), image, b, rest);
    assert FailingRounds(status, n) == [a] + ([b] + rest);
  }

  lemma FailingRound(s: Session, image: seq<seq<Byte>>, status: Status) returns (t: Session)
    requires Inv(s, image) && s.phase.Requested? && s.retries < MAX_RETRIES && !status.OK? && !status.IO?
    ensures t == Next(Next(s, image, Answered(status, 0, GOOD_FLASH, OK)), image, TimerExpires(OK)) && Inv(t, image)
    ensures t == s.(retries := s.retries + 1, attempts := s.attempts + 1, resumeIdx := s.phase.idx)
  {
    var mid := Next(s, image, Answered(status, 0, GOOD_FLASH, OK));
    StepKeepsInv(s, image, Answered(status, 0, GOOD_FLASH, OK));
    t := Next(mid, image, TimerExpires(OK));
    StepKeepsInv(mid, image, TimerExpires(OK));
  }

  // ---------------------------------------------------------------- the bound on requests

  lemma {:induction false} RunConcat(s: Session, image: seq<seq<Byte>>, a: seq<Action>, b: seq<Action>)
    requires Inv(s, image)
    ensures Run(s, image, a + b) == Run(Run(s, image, a), image, b)
    decreases |a|
  {
    if a == [] {
      assert a + b == b;
    } else {
      StepKeepsInv(s, image, a[0]);
      RunConcat(Next(s, image, a[0]), image, a[1..], b);
      RunCons(s, image, a[0], a[1..] + b);
      assert a + b == [a[0]] + (a[1..] + b);
    }
  }

  /** Blocks handed over slowly: each only after `tries` failures. */
  function SlowDeliveries(numbers: seq<nat>, tries: nat): seq<Action> {
    if numbers == [] then []
    else FailingRounds(FAIL, tries) + ([Answered(OK, numbers[0], GOOD_FLASH, OK)] + SlowDeliveries(numbers[1..], tries))
  }

  lemma SlowBlock(s: Session, image: seq<seq<Byte>>, numbers: seq<nat>, tries: nat) returns (t: Session)
    requires Inv(s, image) && s.phase.Requested? && s.retries == 0 && numbers != [] && tries <= MAX_RETRIES
    requires numbers[0] < |image| - 1 && Deliverable(s.phase.idx, numbers[0])
    ensures Inv(t, image) && t.phase.Requested? && t.retries == 0
    ensures t.numbers == s.numbers + [numbers[0]] && t.attempts == s.attempts + tries + 1
    ensures Run(s, image, SlowDeliveries(numbers, tries)) == Run(t, image, SlowDeliveries(numbers[1..], tries))
  {
    var a, rest := Answered(OK, numbers[0], GOOD_FLASH, OK), SlowDeliveries(numbers[1..], tries);
    var tired := Run(s, image, FailingRounds(FAIL, tries));
    RetriesAreSpent(s, image, FAIL, tries);
    t := BlockStored(tired, image, numbers[0]);
    RunConcat(s, image, FailingRounds(FAIL, tries), [a] + rest);
    RunCons(tired, image, a, rest);
  }

  lemma FirstOfMore(before: seq<nat>, numbers: seq<nat>, n: nat)
    requires NumbersOk(before + numbers, n, true) && numbers != [] && numbers[|numbers| - 1] != n - 1
    ensures numbers[0] < n - 1 && Deliverable(|before|, numbers[0])
    ensures before + [numbers[0]] + numbers[1..] == before + numbers
  {
    var all := before + numbers;
    assert all[|before|] == numbers[0] && all[|all| - 1] == numbers[|numbers| - 1];
  }

  lemma {:induction false} SlowlyStored(s: Session, image: seq<seq<Byte>>, numbers: seq<nat>, tries: nat)
    requires Inv(s, image) && s.phase.Requested? && s.retries == 0 && tries == MAX_RETRIES
    requires NumbersOk(s.numbers + numbers, |image|, true)
    requires numbers != [] ==> numbers[|numbers| - 1] != |image| - 1
    ensures var t := Run(s, image, SlowDeliveries(numbers, tries));
            t.numbers == s.numbers + numbers && t.attempts == s.attempts + 16 * |numbers|
    decreases |numbers|
  {
    if numbers == [] {
      assert s.numbers + numbers == s.numbers;
    } else {
      FirstOfMore(s.numbers, numbers, |image|);
      var t := SlowBlock(s, image, numbers, tries);
      assert numbers[1..] != [] ==> numbers[1..][|numbers[1..]| - 1] == numbers[|numbers| - 1];
      SlowlyStored(t, image, numbers[1..], tries);
    }
  }

  /** Fewer blocks stored than the image has, or the final one stored: the bound of sixteen requests for
      each block of the image holds. */
  lemma BoundHolds(s: Session, image: seq<seq<Byte>>)
    requires Inv(s, image)
    requires |s.numbers| < |image| || s.numbers[|s.numbers| - 1] == |image| - 1
    ensures s.attempts <= 16 * |image|
  {
    if |s.numbers| > |image| {
      assert Deliverable(|s.numbers| - 1, s.numbers[|s.numbers| - 1]);
      assert s.numbers[0] == |image| - 1;
    }
  }

  /** As many blocks as the image has without its final one: some of them were not the ones asked for. */
  lemma TooManyBlocks(numbers: seq<nat>, n: nat)
    requires n > 0 && NumbersOk(numbers, n, true) && |numbers| >= n && numbers[|numbers| - 1] != n - 1
    ensures !InOrder(numbers)
  {
    assert numbers[n - 1] < n && numbers[|numbers| - 1] < n;
  }

  /** For each list of blocks that can be stored: no session that stores it makes more than sixteen
      requests per block of the image, if and only if it is shorter than the image or ends with its final
      block. Otherwise it holds a block that was not the one asked for, and some session that stores it
      exceeds the bound. */
  lemma BoundHoldsExactlyWhen(flash: seq<Byte>, image: seq<seq<Byte>>, numbers: seq<nat>)
    requires |image| > 0 && NumbersOk(numbers, |image|, true)
    ensures Inv(Start(flash, OK), image)
    ensures (forall actions :: Run(Start(flash, OK), image, actions).numbers == numbers ==>
                               Run(Start(flash, OK), image, actions).attempts <= 16 * |image|)
            <==> |numbers| < |image| || numbers[|numbers| - 1] == |image| - 1
    ensures |numbers| < |image| || numbers[|numbers| - 1] == |image| - 1 || !InOrder(numbers)
  {
    StartInv(flash, OK, image);
    var s := Start(flash, OK);
    if |numbers| < |image| || numbers[|numbers| - 1] == |image| - 1 {
      forall actions | Run(s, image, actions).numbers == numbers
        ensures Run(s, image, actions).attempts <= 16 * |image|
      {
        BoundHolds(Run(s, image, actions), image);
      }
    } else {
      TooManyBlocks(numbers, |image|);
      assert [] + numbers == numbers;
      var tries := MAX_RETRIES;
      SlowlyStored(s, image, numbers, tries);
      assert Run(s, image, SlowDeliveries(numbers, tries)).attempts > 16 * |image|;
    }
  }

  /** A failed answer ends the session with its own status if it is an I/O error or no retry is left;
      otherwise the same block is asked for again when the timer expires, unless that is refused. */
  lemma FailureOutcome(s: Session, image: seq<seq<Byte>>, status: Status, f: Flash, enqueue: Status, again: Status)
    requires Inv(s, image) && s.phase.Requested? && !status.OK?
    ensures var t := Next(s, image, Answered(status, 0, f, enqueue));
            && t.flash == s.flash && t.hashed == s.hashed && t.numbers == s.numbers
            && if status.IO? || s.retries == MAX_RETRIES then t.phase == Complete && t.result == status
               else
                 && t.phase == TimerArmed && t.retries == s.retries + 1
                 && Next(t, image, TimerExpires(again)).phase == if again.OK? then s.phase else Stalled
  {
    assert s.phase == Requested(s.phase.idx);
  }

  /** A block that flash does not take ends the session with an I/O error at once. */
  lemma FlashErrorOutcome(s: Session, image: seq<seq<Byte>>, d: nat, f: Flash, enqueue: Status)
    requires Inv(s, image) && Possible(s, image, Answered(OK, d, f, enqueue))
    requires !Stores(s, image, Answered(OK, d, f, enqueue))
    ensures var t := Next(s, image, Answered(OK, d, f, enqueue));
            t.phase == Complete && t.result == IO && t.hashed == s.hashed && t.numbers == s.numbers
  {
  }

  /** The progress measure: a lexicographic pair that every event decreases, as long as the session
      runs. It is bounded from below while the blocks stored are the ones asked for. */
  ghost function BlocksLeft(s: Session, image: seq<seq<Byte>>): int {
    |image| - |s.numbers|
  }

  ghost function TriesLeft(s: Session): int {
    2 * (MAX_RETRIES - s.retries) + (if s.phase.TimerArmed? then 2 else if s.phase.Requested? then 1 else 0)
  }

  lemma EveryEventMakesProgress(s: Session, image: seq<seq<Byte>>, a: Action)
    requires Inv(s, image) && Possible(s, image, a)
    ensures var t := Next(s, image, a);
            && 0 <= TriesLeft(t) && (InOrder(t.numbers) ==> 0 <= BlocksLeft(t, image))
            && (|| BlocksLeft(t, image) < BlocksLeft(s, image)
                || (BlocksLeft(t, image) == BlocksLeft(s, image) && TriesLeft(t) < TriesLeft(s)))
  {
    StepKeepsInv(s, image, a);
    if InOrder(Next(s, image, a).numbers) {
      PickedInOrder(image, Next(s, image, a).numbers);
    }
  }

  /** The callbacks as they update `struct download_progress_context` in place. */
  class DownloadProgress {
    var phase: Phase
    var resumeIdx: nat
    var retries: nat
    var bytesDownloaded: nat
    var result: Status
    var hashed: seq<Byte>
    var flash: seq<Byte>
    ghost var numbers: seq<nat>
    ghost var attempts: nat
    var completions: nat

    ghost function View(): Session
      reads this
    {
      Session(phase, resumeIdx, retries, bytesDownloaded, result, hashed, flash, numbers, attempts, completions)
    }

    constructor (area: seq<Byte>, enqueue: Status)
      ensures View() == Start(area, enqueue)
    {
      phase := if enqueue.OK? then Requested(0) else NotStarted;
      resumeIdx, retries, bytesDownloaded, result := 0, 0, 0, enqueue;
      hashed, flash, numbers, attempts, completions := [], area, [], 1, 0;
    }

    method FwWriteBlockCb(idx: nat, ghost d: nat, payload: seq<Byte>, f: Flash) returns (r: Status)
      modifies this
      ensures (r, View()) == WriteBlock(old(View()), idx, d, payload, f)
    {
      if idx == 0 {
        if !f.prepareOk {
          if f.erased {
            flash := [];
          }
          return IO;
        }
        flash := [];
      }
      if !f.writeOk {
        flash := flash + f.torn;
        return IO;
      }
      flash := flash + payload;
      numbers := numbers + [d];
      retries := 0;
      bytesDownloaded := bytesDownloaded + |payload|;
      hashed := hashed + payload;
      return OK;
    }

    method FwDownloadEndCb(status: Status, idx: nat)
      modifies this
      ensures View() == EndDownload(old(View()), status, idx)
    {
      if status.OK? || status.IO? || retries >= MAX_RETRIES {
        result := status;
        completions := completions + 1;
        phase := Complete;
      } else {
        retries := retries + 1;
        resumeIdx := idx;
        phase := TimerArmed;
      }
    }

    method BlockRetryTimerExpiry(enqueue: Status)
      requires phase.TimerArmed?
      modifies this
      ensures View() == OnTimer(old(View()), enqueue)
    {
      attempts := attempts + 1;
      phase := if enqueue.OK? then Requested(resumeIdx) else Stalled;
    }

    /** `on_block_rcvd` with the two callbacks above, given what the engine handed over. */
    method OnBlockRcvd(answer: Status, payload: seq<Byte>, isLast: bool, f: Flash, enqueue: Status,
                       ghost image: seq<seq<Byte>>, ghost d: nat)
      requires phase.Requested?
      requires if answer.OK? then d < |image| && payload == image[d] && (isLast <==> d == |image| - 1) else !isLast
      modifies this
      ensures View() == OnAnswer(old(View()), image, answer, d, f, enqueue)
    {
      var idx := phase.idx;
      var status := answer;
      if answer.OK? {
        status := FwWriteBlockCb(idx, d, payload, f);
      }
      if isLast || !status.OK? {
        FwDownloadEndCb(status, idx);
      } else {
        attempts := attempts + 1;
        if enqueue.OK? {
          phase := Requested(idx + 1);
        } else {
          FwDownloadEndCb(enqueue, idx + 1);
        }
      }
    }
  }
}
