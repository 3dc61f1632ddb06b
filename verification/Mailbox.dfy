/** The request mailbox under concurrency: any number of producers running
    `golioth_mbox_try_send` (serialised by a mutex) and one consumer running `golioth_mbox_recv`
    without it. Every shared access is a step of its own; the two `memcpy` calls move one byte per
    step, so a copy can be interleaved with anything. Steps take effect in program order. */
module Mailbox {
  import opened Basics
  import opened Ring

  type Pid = nat

  /** Where a producer is inside `golioth_mbox_try_send` / `ringbuf_put`. */
  datatype Producer =
    | Outside
    | WantsMutex(item: Item)
    | Checking(item: Item)            // holds the mutex, about to test for a full ring
    | Copying(item: Item, done: nat)  // holds the mutex, `done` bytes of the slot written
    | Refused                         // holds the mutex, the ring was full
    | Published                       // holds the mutex, write_index advanced
    | OwesGive                        // mutex released, fill_count_sem not yet given

  /** Where the consumer is inside `golioth_mbox_recv` / `ringbuf_get_internal`. */
  datatype Consumer = Waiting | Taken | Fetching(bytes: seq<Byte>)

  /** `struct golioth_mbox`, the control points of its users, and two histories: the items published
      and the items handed out. `failed` records a violated assert of the source. */
  datatype State = State(
    itemSize: nat,
    slots: seq<Item>,
    write: nat,
    read: nat,
    fill: nat,
    mutexFree: bool,
    producers: map<Pid, Producer>,
    consumer: Consumer,
    puts: seq<Item>,
    gets: seq<Item>,
    failed: bool)

  datatype Action =
    | CallSend(p: Pid, item: Item)
    | TakeMutex(p: Pid)
    | CheckFull(p: Pid)
    | CopyByte(p: Pid)
    | Publish(p: Pid)
    | GiveMutex(p: Pid)
    | GiveFill(p: Pid)
    | TakeFill
    | CheckEmpty
    | FetchByte
    | AdvanceRead

  function Capacity(s: State): int {
    |s.slots| - 1
  }

  predicate IsFull(s: State)
    requires |s.slots| > 0
  {
    (s.write + 1) % |s.slots| == s.read
  }

  function At(s: State, p: Pid): Producer {
    if p in s.producers then s.producers[p] else Outside
  }

  function Goto(s: State, p: Pid, pc: Producer): State {
    s.(producers := s.producers[p := pc])
  }

  /** One atomic step, or None when the action is not possible in the state. */
  function Next(s: State, a: Action): Option<State>
    requires Shape(s)
  {
    match a
    case CallSend(p, item) =>
      if At(s, p).Outside? && |item| == s.itemSize then Some(Goto(s, p, WantsMutex(item))) else None
    case TakeMutex(p) =>
      if At(s, p).WantsMutex? && s.mutexFree
      then Some(Goto(s, p, Checking(At(s, p).item)).(mutexFree := false)) else None
    case CheckFull(p) =>
      if !At(s, p).Checking? then None
      else if IsFull(s) then Some(Goto(s, p, Refused))
      else Some(Goto(s, p, Copying(At(s, p).item, 0)))
    case CopyByte(p) =>
      var pc := At(s, p);
      if !pc.Copying? || pc.done >= s.itemSize || |pc.item| != s.itemSize then None
      else Some(Goto(s, p, Copying(pc.item, pc.done + 1)).(
        slots := s.slots[s.write := s.slots[s.write][pc.done := pc.item[pc.done]]]))
    case Publish(p) =>
      var pc := At(s, p);
      if !pc.Copying? || pc.done != s.itemSize then None
      else Some(Goto(s, p, Published).(write := (s.write + 1) % |s.slots|, puts := s.puts + [pc.item]))
    case GiveMutex(p) =>
      if At(s, p).Published? then Some(Goto(s, p, OwesGive).(mutexFree := true))
      else if At(s, p).Refused? then Some(Goto(s, p, Outside).(mutexFree := true))
      else None
    case GiveFill(p) =>
      if !At(s, p).OwesGive? then None
      else if s.fill < Capacity(s) then Some(Goto(s, p, Outside).(fill := s.fill + 1))
      else Some(Goto(s, p, Outside).(failed := true))
    case TakeFill =>
      if s.consumer.Waiting? && s.fill > 0
      then Some(s.(fill := s.fill - 1, consumer := Taken)) else None
    case CheckEmpty =>
      if !s.consumer.Taken? then None
      else if s.write == s.read then Some(s.(consumer := Waiting, failed := true))
      else Some(s.(consumer := Fetching([])))
    case FetchByte =>
      if !s.consumer.Fetching? || |s.consumer.bytes| >= s.itemSize then None
      else Some(s.(consumer := Fetching(s.consumer.bytes + [s.slots[s.read][|s.consumer.bytes|]])))
    case AdvanceRead =>
      if !s.consumer.Fetching? || |s.consumer.bytes| != s.itemSize then None
      else Some(s.(read := (s.read + 1) % |s.slots|, consumer := Waiting,
                   gets := s.gets + [s.consumer.bytes]))
  }

  /** `golioth_mbox_create`: `numItems + 1` slots, both indices at 0, the semaphore at 0. */
  function Create(numItems: nat, itemSize: nat): State {
    var zero: Item := seq(itemSize, _ => 0);
    State(itemSize, seq(numItems + 1, _ => zero), 0, 0, 0, true, map[], Waiting, [], [], false)
  }

  ghost predicate Shape(s: State) {
    && |s.slots| > 0
    && s.write < |s.slots| && s.read < |s.slots|
    && forall i :: 0 <= i < |s.slots| ==> |s.slots[i]| == s.itemSize
  }

  function Size(s: State): nat
    requires Shape(s)
  {
    RingSize(|s.slots|, s.write, s.read)
  }

  /** The abstract queue. */
  ghost function Queue(s: State): (q: seq<Item>)
    requires Shape(s)
    ensures |q| == Size(s)
  {
    Unread(s.slots, s.write, s.read)
  }

  predicate HoldsMutex(pc: Producer) {
    pc.Checking? || pc.Copying? || pc.Refused? || pc.Published?
  }

  predicate OwesFill(pc: Producer) {
    pc.Published? || pc.OwesGive?
  }

  /** Producers that have published an item but not yet given the semaphore. */
  ghost function Owing(m: map<Pid, Producer>): set<Pid> {
    set p | p in m && OwesFill(m[p])
  }

  ghost function InHand(c: Consumer): nat {
    if c.Waiting? then 0 else 1
  }

  ghost predicate ProducerInv(s: State, pc: Producer)
    requires Shape(s)
  {
    match pc
    case WantsMutex(item) => |item| == s.itemSize
    case Checking(item) => |item| == s.itemSize
    case Copying(item, done) =>
      && |item| == s.itemSize && done <= s.itemSize
      && !IsFull(s) && s.slots[s.write][..done] == item[..done]
    case _ => true
  }

  /** The mutex is held by at most one producer, and is free exactly when it is held by none. */
  ghost predicate Exclusive(m: map<Pid, Producer>, free: bool) {
    && (forall p :: p in m && HoldsMutex(m[p]) ==> !free)
    && (!free ==> exists p :: p in m && HoldsMutex(m[p]))
    && (forall p, q :: p in m && q in m && HoldsMutex(m[p]) && HoldsMutex(m[q]) ==> p == q)
  }

  ghost predicate ConsumerInv(s: State)
    requires Shape(s)
  {
    s.consumer.Fetching? ==>
      && |s.consumer.bytes| <= s.itemSize
      && s.consumer.bytes == s.slots[s.read][..|s.consumer.bytes|]
  }

  /** The size law. */
  ghost predicate Balanced(s: State)
    requires Shape(s)
  {
    Size(s) == s.fill + |Owing(s.producers)| + InHand(s.consumer)
  }

  ghost predicate Inv(s: State) {
    && Shape(s)
    && !s.failed
    && (forall p :: p in s.producers ==> ProducerInv(s, s.producers[p]))
    && Exclusive(s.producers, s.mutexFree)
    && ConsumerInv(s)
    && Balanced(s)
    && s.puts == s.gets + Queue(s)
  }

  lemma OwingUpdate(m: map<Pid, Producer>, p: Pid, pc: Producer)
    ensures var was := p in m && OwesFill(m[p]);
            |Owing(m[p := pc])| ==
            |Owing(m)| + (if OwesFill(pc) then 1 else 0) - (if was then 1 else 0)
  {
    var old', new' := Owing(m), Owing(m[p := pc]);
    if OwesFill(pc) {
      assert new' == old' + {p};
    } else {
      assert new' == old' - {p};
    }
  }

  /** What one step may do to the abstract queue: nothing, append an item to a queue that is not
      full, or hand out the oldest item. */
  ghost predicate QueueStep(s: State, t: State)
    requires Shape(s) && Shape(t)
  {
    || (Queue(t) == Queue(s) && t.puts == s.puts && t.gets == s.gets)
    || (exists item ::
          && |Queue(s)| < Capacity(s) && t.gets == s.gets
          && Queue(t) == Queue(s) + [item] && t.puts == s.puts + [item])
    || (|Queue(s)| > 0 && t.puts == s.puts
        && Queue(t) == Queue(s)[1..] && t.gets == s.gets + [Queue(s)[0]])
  }

  lemma CreateInv(numItems: nat, itemSize: nat)
    ensures Inv(Create(numItems, itemSize))
    ensures Queue(Create(numItems, itemSize)) == [] && Capacity(Create(numItems, itemSize)) == numItems
  {
    assert Owing(map[]) == {};
  }

  /** The consumer's steps that leave the ring alone. */
  lemma ConsumerStep(s: State, a: Action)
    requires Inv(s) && Next(s, a).Some?
    requires a.TakeFill? || a.CheckEmpty? || a.FetchByte?
    ensures var t := Next(s, a).value;
            Inv(t) && Queue(t) == Queue(s) && t.puts == s.puts && t.gets == s.gets
  {
    var t := Next(s, a).value;
    RingFacts(|s.slots|, s.write, s.read);
    forall q | q in t.producers ensures ProducerInv(t, t.producers[q]) {
      assert ProducerInv(s, s.producers[q]);
    }
  }

  predicate LeavesRingAlone(a: Action) {
    a.CallSend? || a.TakeMutex? || a.CheckFull? || a.GiveMutex? || a.GiveFill?
  }

  /** A producer's change of control point obeys the mutex. */
  lemma ProducerExclusive(s: State, a: Action)
    requires Inv(s) && LeavesRingAlone(a) && Next(s, a).Some?
    ensures var t := Next(s, a).value; Exclusive(t.producers, t.mutexFree)
  {
    var t := Next(s, a).value;
    ExclusiveMove(s.producers, s.mutexFree, a.p, t.producers[a.p], t.mutexFree);
  }

  /** A move that acquires the free mutex, keeps it, gives it back, or has nothing to do with it. */
  lemma ExclusiveMove(m: map<Pid, Producer>, free: bool, p: Pid, pc: Producer, free': bool)
    requires Exclusive(m, free)
    requires var held := p in m && HoldsMutex(m[p]);
             if held then free' == !HoldsMutex(pc) else if HoldsMutex(pc) then free && !free' else free' == free
    ensures Exclusive(m[p := pc], free')
  {
    if !free' {
      var q :| q in m[p := pc] && (HoldsMutex(pc) ==> q == p) && (!HoldsMutex(pc) ==> q in m && HoldsMutex(m[q]));
      assert q in m[p := pc] && HoldsMutex(m[p := pc][q]);
    }
  }

  /** The semaphore give never finds the semaphore at its maximum, so it never fails. */
  lemma ProducerBalanced(s: State, a: Action)
    requires Inv(s) && LeavesRingAlone(a) && Next(s, a).Some?
    ensures var t := Next(s, a).value; Shape(t) && Balanced(t) && !t.failed
  {
    var t := Next(s, a).value;
    OwingUpdate(s.producers, a.p, t.producers[a.p]);
    if a.GiveFill? {
      assert a.p in Owing(s.producers);
    }
  }

  lemma ProducerStep(s: State, a: Action)
    requires Inv(s) && LeavesRingAlone(a) && Next(s, a).Some?
    ensures var t := Next(s, a).value;
            Inv(t) && Queue(t) == Queue(s) && t.puts == s.puts && t.gets == s.gets
  {
    var t := Next(s, a).value;
    ProducerExclusive(s, a);
    ProducerBalanced(s, a);
    forall q | q in t.producers ensures ProducerInv(t, t.producers[q]) {
      if q != a.p {
        assert ProducerInv(s, s.producers[q]);
      }
    }
  }

  lemma CopyStep(s: State, p: Pid)
    requires Inv(s) && Next(s, CopyByte(p)).Some?
    ensures var t := Next(s, CopyByte(p)).value; Inv(t) && Queue(t) == Queue(s)
  {
    var t := Next(s, CopyByte(p)).value;
    var pc := At(s, p);
    RingFacts(|s.slots|, s.write, s.read);
    OwingUpdate(s.producers, p, Copying(pc.item, pc.done + 1));
    ExclusiveMove(s.producers, s.mutexFree, p, Copying(pc.item, pc.done + 1), s.mutexFree);
    WriteOutsideUnread(s.slots, s.write, s.read, t.slots[s.write]);
    assert t.slots[t.write][..pc.done + 1] == pc.item[..pc.done + 1];
  }

  lemma PublishStep(s: State, p: Pid)
    requires Inv(s) && Next(s, Publish(p)).Some?
    ensures var t := Next(s, Publish(p)).value;
            Inv(t) && |Queue(s)| < Capacity(s) && Queue(t) == Queue(s) + [At(s, p).item]
  {
    var t := Next(s, Publish(p)).value;
    var pc := At(s, p);
    RingFacts(|s.slots|, s.write, s.read);
    OwingUpdate(s.producers, p, Published);
    ExclusiveMove(s.producers, s.mutexFree, p, Published, s.mutexFree);
    assert s.slots[s.write] == pc.item by {
      assert s.slots[s.write][..s.itemSize] == s.slots[s.write];
      assert pc.item[..s.itemSize] == pc.item;
    }
    PushUnread(s.slots, s.write, s.read);
    assert |Queue(t)| == |Queue(s)| + 1;
    assert Balanced(t);
    forall q | q in t.producers ensures ProducerInv(t, t.producers[q]) {
      if q != p {
        assert !HoldsMutex(t.producers[q]);
        assert ProducerInv(s, s.producers[q]);
      }
    }
  }

  lemma AdvanceStep(s: State)
    requires Inv(s) && Next(s, AdvanceRead).Some?
    ensures var t := Next(s, AdvanceRead).value;
            Inv(t) && [s.consumer.bytes] + Queue(t) == Queue(s)
  {
    var t := Next(s, AdvanceRead).value;
    RingFacts(|s.slots|, s.write, s.read);
    assert s.consumer.bytes == s.slots[s.read] by {
      assert s.slots[s.read][..s.itemSize] == s.slots[s.read];
    }
    assert s.write != s.read;
    PopUnread(s.slots, s.write, s.read);
    assert Balanced(t);
    Associative(s.gets, [s.consumer.bytes], Queue(t));
    RingFacts(|t.slots|, t.write, t.read);
    forall q | q in t.producers ensures ProducerInv(t, t.producers[q]) {
      assert ProducerInv(s, s.producers[q]);
    }
  }

  /** Every step, whoever takes it, keeps the invariant (so no assert of the source fails) and is a
      step of a bounded first-in-first-out queue. */
  lemma StepRefinesQueue(s: State, a: Action)
    requires Inv(s) && Next(s, a).Some?
    ensures Inv(Next(s, a).value) && QueueStep(s, Next(s, a).value)
    ensures Capacity(Next(s, a).value) == Capacity(s)
  {
    match a
    case CopyByte(p) => CopyStep(s, p);
    case Publish(p) => PublishStep(s, p);
    case AdvanceRead => AdvanceStep(s);
    case TakeFill => ConsumerStep(s, a);
    case CheckEmpty => ConsumerStep(s, a);
    case FetchByte => ConsumerStep(s, a);
    case _ => ProducerStep(s, a);
  }

  /** The states a schedule passes through; impossible actions leave the state alone. */
  ghost function Run(s: State, schedule: seq<Action>): (t: State)
    requires Inv(s)
    ensures Inv(t)
    decreases |schedule|
  {
    if schedule == [] then s
    else if Next(s, schedule[0]).Some? then
      StepRefinesQueue(s, schedule[0]);
      Run(Next(s, schedule[0]).value, schedule[1..])
    else Run(s, schedule[1..])
  }

  /** For every schedule: no assert fails, items leave in the order they were published, at most
      `numItems` are held, and the size is the semaphore count plus the gives still owed plus the
      take not yet fetched. */
  lemma MailboxIsBoundedFifo(numItems: nat, itemSize: nat, schedule: seq<Action>)
    ensures Inv(Create(numItems, itemSize))
    ensures var t := Run(Create(numItems, itemSize), schedule);
            && !t.failed
            && t.gets <= t.puts
            && |t.puts| - |t.gets| == Size(t) <= numItems
            && Size(t) == t.fill + |Owing(t.producers)| + InHand(t.consumer)
  {
    CreateInv(numItems, itemSize);
    var s := Create(numItems, itemSize);
    RunKeepsCapacity(s, schedule);
  }

  lemma {:induction false} RunKeepsCapacity(s: State, schedule: seq<Action>)
    requires Inv(s)
    ensures Capacity(Run(s, schedule)) == Capacity(s)
    decreases |schedule|
  {
    if schedule != [] {
      if Next(s, schedule[0]).Some? {
        StepRefinesQueue(s, schedule[0]);
        RunKeepsCapacity(Next(s, schedule[0]).value, schedule[1..]);
      } else {
        RunKeepsCapacity(s, schedule[1..]);
      }
    }
  }

  /** `golioth_mbox_try_send` refuses exactly when the queue holds its full capacity at the check. */
  lemma RefusedExactlyWhenFull(s: State, p: Pid)
    requires Inv(s) && At(s, p).Checking?
    ensures Next(s, CheckFull(p)).Some?
    ensures At(Next(s, CheckFull(p)).value, p).Refused? <==> |Queue(s)| == Capacity(s)
  {
    RingFacts(|s.slots|, s.write, s.read);
  }

  /** While a producer copies, whatever consumer and other producers do, the slot it writes is none
      of the unread ones. */
  lemma WriterNeverTouchesUnread(s: State, p: Pid, k: nat)
    requires Inv(s) && At(s, p).Copying? && k < Size(s)
    ensures Size(s) < Capacity(s) && RingSlot(|s.slots|, s.read, k) != s.write
  {
    RingFacts(|s.slots|, s.write, s.read);
  }

  // ---------------------------------------------------------------- when steps are possible

  /** The control point and the condition of every step. */
  predicate CanStep(s: State, a: Action) {
    match a
    case CallSend(p, item) => At(s, p).Outside? && |item| == s.itemSize
    case TakeMutex(p) => At(s, p).WantsMutex? && s.mutexFree
    case CheckFull(p) => At(s, p).Checking?
    case CopyByte(p) => At(s, p).Copying? && At(s, p).done < s.itemSize
    case Publish(p) => At(s, p).Copying? && At(s, p).done == s.itemSize
    case GiveMutex(p) => At(s, p).Published? || At(s, p).Refused?
    case GiveFill(p) => At(s, p).OwesGive?
    case TakeFill => s.consumer.Waiting? && s.fill > 0
    case CheckEmpty => s.consumer.Taken?
    case FetchByte => s.consumer.Fetching? && |s.consumer.bytes| < s.itemSize
    case AdvanceRead => s.consumer.Fetching? && |s.consumer.bytes| == s.itemSize
  }

  /** Every step is possible exactly at its control point; only the mutex and the semaphore make anyone
      wait. */
  lemma StepIsPossibleExactlyWhen(s: State, a: Action)
    requires Inv(s)
    ensures Next(s, a).Some? <==> CanStep(s, a)
  {
    if a.CopyByte? && At(s, a.p).Copying? {
      assert ProducerInv(s, s.producers[a.p]);
    }
  }

  /** Someone is inside the mailbox, or something is queued. */
  ghost predicate Busy(s: State)
    requires Shape(s)
  {
    (exists p :: p in s.producers && !s.producers[p].Outside?) || !s.consumer.Waiting? || Queue(s) != []
  }

  lemma HolderCanStep(s: State, p: Pid) returns (a: Action)
    requires Inv(s) && p in s.producers && HoldsMutex(s.producers[p])
    ensures !a.CallSend? && CanStep(s, a)
  {
    assert ProducerInv(s, s.producers[p]);
    match s.producers[p]
    case Checking(_) => a := CheckFull(p);
    case Copying(_, done) => a := if done < s.itemSize then CopyByte(p) else Publish(p);
    case Refused => a := GiveMutex(p);
    case Published => a := GiveMutex(p);
  }

  lemma ProducerCanStep(s: State, p: Pid) returns (a: Action)
    requires Inv(s) && p in s.producers && !s.producers[p].Outside?
    ensures !a.CallSend? && CanStep(s, a)
  {
    match s.producers[p]
    case OwesGive => a := GiveFill(p);
    case WantsMutex(_) =>
      if s.mutexFree {
        a := TakeMutex(p);
      } else {
        var q :| q in s.producers && HoldsMutex(s.producers[q]);
        a := HolderCanStep(s, q);
      }
    case _ => a := HolderCanStep(s, p);
  }

  /** The mailbox never gets stuck: as long as someone is inside it or something is queued, a step that is
      not a new call is possible; with nobody inside, it is the consumer's taking the next item. */
  lemma NeverStuck(s: State)
    requires Inv(s) && Busy(s)
    ensures exists a: Action :: !a.CallSend? && Next(s, a).Some?
    ensures (forall p :: p in s.producers ==> s.producers[p].Outside?) && s.consumer.Waiting? ==> Next(s, TakeFill).Some?
  {
    var a: Action;
    if s.consumer.Taken? {
      a := CheckEmpty;
    } else if s.consumer.Fetching? {
      a := if |s.consumer.bytes| < s.itemSize then FetchByte else AdvanceRead;
    } else if p :| p in s.producers && !s.producers[p].Outside? {
      a := ProducerCanStep(s, p);
    } else {
      assert Owing(s.producers) == {};
      assert |Queue(s)| == s.fill;
      a := TakeFill;
    }
    StepIsPossibleExactlyWhen(s, a);
  }
}
