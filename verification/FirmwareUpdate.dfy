/** The firmware update loop (`golioth_fw_update_run`): waiting for manifests, downloading, backing
    off after failures, and switching the boot image. */
module FirmwareUpdate {
  import opened Basics
  import opened Machine32
  import opened BlockDownload
  import FirmwareDownload

  const BACKOFF_INITIAL_MS: nat := 60_000
  const BACKOFF_MAX_MS: nat := 86_400_000

  /** `struct golioth_ota_component`. */
  datatype Component = Component(package: string, version: string, hash: seq<Byte>, size: nat)

  /** The configured package name, the running version, and SHA-256. */
  datatype Config = Config(package: string, version: string, sha: seq<Byte> -> seq<Byte>)

  /** What can be observed of a run, in order. */
  datatype Event =
    | Targeted(component: Component)
    | CheckPassed
    | Started(at: nat)
    | Failed(at: nat)
    // blocks `numbers` of the server's `image` were downloaded, which make up `stream`
    | Verified(image: seq<seq<Byte>>, numbers: seq<nat>, stream: seq<Byte>, flash: seq<Byte>, hashOk: bool)
    | SwitchRequested

  datatype Phase = Idle | Downloading | Rebooting

  /** The static state of the loop. `clock` is the true time in milliseconds, of which the program
      sees the low 32 bits; `digest` is the buffer the hash is finished into and `completed` the count
      of the semaphore _download_complete, which lives as long as the program. */
  datatype Loop = Loop(
    phase: Phase,
    clock: nat,
    target: Component,
    backoffMs: uint32,
    lastFailTs: uint32,
    digest: seq<Byte>,
    flash: seq<Byte>,
    completed: nat,
    log: seq<Event>)

  datatype Action =
    // the wait is set up at `t1`; a manifest is taken at `t2`
    | ManifestTaken(t1: nat, t2: nat, manifest: seq<Component>, checkPasses: bool, bootOk: bool)
    // the wait set up at `t1` ends without a manifest at `t2`
    | WaitTimesOut(t1: nat, t2: nat)
    // a download from `t1` to `t2`, when the loop stops waiting for it
    | Download(t1: nat, t2: nat, image: seq<seq<Byte>>, enqueue: Status,
               events: seq<FirmwareDownload.Action>, hashOk: bool, bootOk: bool)

  /** The component is the i-th, and the first with the package name. */
  ghost predicate IsFirstOf(manifest: seq<Component>, package: string, i: nat, x: Component) {
    && i < |manifest| && manifest[i] == x && x.package == package
    && forall j :: 0 <= j < i ==> manifest[j].package != package
  }

  /** `golioth_ota_find_component`. */
  function FindComponent(manifest: seq<Component>, package: string): (r: Option<Component>)
    ensures r.None? <==> forall i :: 0 <= i < |manifest| ==> manifest[i].package != package
    ensures r.Some? ==> exists i: nat :: IsFirstOf(manifest, package, i, r.value)
  {
    if manifest == [] then None
    else if manifest[0].package == package then
      assert IsFirstOf(manifest, package, 0, manifest[0]);
      Some(manifest[0])
    else
      var r := FindComponent(manifest[1..], package);
      assert forall i :: 0 <= i < |manifest| - 1 ==> manifest[1..][i] == manifest[i + 1];
      assert forall i: nat, x :: IsFirstOf(manifest[1..], package, i, x) ==> IsFirstOf(manifest, package, i + 1, x);
      r
  }

  function BackoffReset(l: Loop): Loop {
    l.(backoffMs := 0, lastFailTs := 0)
  }

  /** `backoff_increment` on 32-bit words. */
  function BackoffIncrement(l: Loop, now: nat): Loop {
    var doubled := U32(l.backoffMs * 2);
    var next := if l.backoffMs == 0 then BACKOFF_INITIAL_MS
                else if doubled > BACKOFF_MAX_MS then BACKOFF_MAX_MS else doubled;
    l.(backoffMs := next, lastFailTs := U32(now))
  }

  /** `backoff_ms_before_expiration`. */
  function BackoffLeft(l: Loop, now: nat): nat {
    var elapsed := U32(U32(now) - l.lastFailTs);
    if elapsed < l.backoffMs then l.backoffMs - elapsed else 0
  }

  /** `received_new_target_component`: the component to adopt, if any. */
  function NewTarget(l: Loop, c: Config, manifest: seq<Component>): Option<Component> {
    match FindComponent(manifest, c.package)
    case None => None
    case Some(found) =>
      if found.version == c.version then None
      else if l.backoffMs != 0 && found.version == l.target.version then None
      else Some(found)
  }

  ghost predicate Enabled(l: Loop, a: Action) {
    match a
    case ManifestTaken(t1, t2, _, _, _) => l.phase.Idle? && l.clock <= t1 <= t2
    case WaitTimesOut(t1, t2) =>
      // no timeout while the backoff is zero (K_FOREVER); the kernel never returns early
      l.phase.Idle? && l.backoffMs != 0 && l.clock <= t1 && t1 + BackoffLeft(l, t1) <= t2
    case Download(t1, t2, image, enqueue, events, _, _) =>
      && l.phase.Downloading? && l.clock <= t1 <= t2 && |image| > 0
      && WaitIsOver(l, SessionOf(l, image, enqueue, events))
  }

  /** A download that could not be started is not waited for. Any other is waited for until the
      semaphore can be taken, whoever has given it. */
  predicate WaitIsOver(l: Loop, s: FirmwareDownload.Session) {
    s.phase.NotStarted? || l.completed + s.completions > 0
  }

  /** The count of _download_complete after the wait; its limit is 1. */
  function CompletedAfter(l: Loop, s: FirmwareDownload.Session): nat
    requires WaitIsOver(l, s)
  {
    if s.phase.NotStarted? then l.completed else Min(1, l.completed + s.completions) - 1
  }

  /** The download session run by the loop. */
  ghost function SessionOf(l: Loop, image: seq<seq<Byte>>, enqueue: Status,
                           events: seq<FirmwareDownload.Action>): (s: FirmwareDownload.Session)
    requires |image| > 0
    ensures FirmwareDownload.Inv(s, image)
  {
    FirmwareDownload.StartInv(l.flash, enqueue, image);
    FirmwareDownload.Run(FirmwareDownload.Start(l.flash, enqueue), image, events)
  }

  function AdoptTarget(l: Loop, found: Component, checkPasses: bool, bootOk: bool): Loop {
    var adopted := BackoffReset(l).(target := found);
    if checkPasses then
      adopted.(log := l.log + [Targeted(found), CheckPassed, SwitchRequested],
               phase := if bootOk then Rebooting else Downloading)
    else adopted.(log := l.log + [Targeted(found)], phase := Downloading)
  }

  /** What the loop does once it stops waiting for session `s`, which was fed from `image`. */
  function FinishDownload(l: Loop, c: Config, t1: nat, t2: nat, s: FirmwareDownload.Session,
                          image: seq<seq<Byte>>, hashOk: bool, bootOk: bool): Loop
    requires WaitIsOver(l, s)
  {
    var backed := BackoffIncrement(l, t2).(clock := t2, flash := s.flash, completed := CompletedAfter(l, s));
    // a hash that could not be set up or finished leaves the buffer as it was
    var digest := if hashOk then c.sha(s.hashed) else l.digest;
    if !s.result.OK? then
      backed.(phase := Idle, log := l.log + [Started(t1), Failed(t2)])
    else if digest != l.target.hash then
      backed.(phase := Idle, digest := digest, log := l.log + [Started(t1), Failed(t2)])
    else
      BackoffReset(backed).(phase := if bootOk then Rebooting else Idle, digest := digest,
        log := l.log + [Started(t1), VerifiedBy(s, image, hashOk), SwitchRequested])
  }

  function VerifiedBy(s: FirmwareDownload.Session, image: seq<seq<Byte>>, hashOk: bool): Event {
    Verified(image, s.numbers, s.hashed, s.flash, hashOk)
  }

  ghost function Next(l: Loop, c: Config, a: Action): Loop
    requires Enabled(l, a)
  {
    match a
    case ManifestTaken(t1, t2, manifest, checkPasses, bootOk) =>
      (match NewTarget(l, c, manifest)
       case None => l.(clock := t2)
       case Some(found) => AdoptTarget(l, found, checkPasses, bootOk).(clock := t2))
    case WaitTimesOut(t1, t2) => l.(clock := t2, phase := Downloading)
    case Download(t1, t2, image, enqueue, events, hashOk, bootOk) =>
      FinishDownload(l, c, t1, t2, SessionOf(l, image, enqueue, events), image, hashOk, bootOk)
  }

  function Initial(): Loop {
    Loop(Idle, 0, Component("", "", [], 0), 0, 0, [], [], 0, [])
  }

  /** The number of consecutive failed downloads of the present target. */
  function Failures(log: seq<Event>): nat {
    if log == [] then 0
    else
      var rest := log[..|log| - 1];
      match log[|log| - 1]
      case Failed(_) => Failures(rest) + 1
      case Targeted(_) => 0
      case Verified(_, _, _, _, _) => 0
      case _ => Failures(rest)
  }

  function LastFailure(log: seq<Event>): nat {
    if log == [] then 0
    else if log[|log| - 1].Failed? then log[|log| - 1].at
    else LastFailure(log[..|log| - 1])
  }

  function CurrentTarget(log: seq<Event>): Option<Component> {
    if log == [] then None
    else if log[|log| - 1].Targeted? then Some(log[|log| - 1].component)
    else CurrentTarget(log[..|log| - 1])
  }

  /** The backoff due after k consecutive failures. */
  function BackoffFor(k: nat): nat {
    if k == 0 then 0 else Min(BACKOFF_INITIAL_MS * Pow2(k - 1), BACKOFF_MAX_MS)
  }

  /** The stream consists of the listed blocks of the image and ends with its final block. */
  ghost predicate Fetched(image: seq<seq<Byte>>, numbers: seq<nat>, stream: seq<Byte>) {
    && FirmwareDownload.Within(image, numbers)
    && stream == FirmwareDownload.Concat(FirmwareDownload.Picked(image, numbers))
    && 0 < |numbers| <= |image| && numbers[|numbers| - 1] == |image| - 1
  }

  /** What every event must satisfy, given the events before it. */
  ghost predicate EventOk(c: Config, log: seq<Event>, i: nat)
    requires i < |log|
  {
    var before := log[..i];
    match log[i]
    case Targeted(found) =>
      // the configured package in another version; never the version already backed off from
      && found.package == c.package && found.version != c.version
      && (Failures(before) > 0 ==>
            CurrentTarget(before).Some? && found.version != CurrentTarget(before).value.version)
    case CheckPassed => i > 0 && log[i - 1].Targeted?
    case Started(at) =>
      && CurrentTarget(before).Some?
      && (Failures(before) > 0 ==> at >= LastFailure(before) + BackoffFor(Failures(before)))
    case Failed(_) => i > 0 && log[i - 1].Started?
    case Verified(image, numbers, stream, flash, hashOk) =>
      && i > 0 && log[i - 1].Started?
      && flash == stream && Fetched(image, numbers, stream)
      && CurrentTarget(before).Some?
      && (hashOk ==> c.sha(stream) == CurrentTarget(before).value.hash)
    case SwitchRequested => i > 0 && (log[i - 1].CheckPassed? || log[i - 1].Verified?)
  }

  ghost predicate LogOk(c: Config, log: seq<Event>) {
    forall i :: 0 <= i < |log| ==> EventOk(c, log, i)
  }

  ghost predicate Inv(l: Loop, c: Config) {
    && LogOk(c, l.log)
    // no session leaves a completion behind
    && l.completed == 0
    && l.backoffMs == BackoffFor(Failures(l.log))
    && (Failures(l.log) > 0 ==>
          && l.lastFailTs == U32(LastFailure(l.log)) && LastFailure(l.log) <= l.clock
          && CurrentTarget(l.log) == Some(l.target))
    && (l.phase.Downloading? ==>
          && CurrentTarget(l.log) == Some(l.target)
          && (Failures(l.log) > 0 ==>
                l.clock >= LastFailure(l.log) + BackoffFor(Failures(l.log))))
  }

  /** Doubling on 32-bit words never overflows, and gives the closed form. */
  lemma BackoffClosedForm(l: Loop, now: nat, k: nat)
    requires l.backoffMs == BackoffFor(k)
    ensures BackoffIncrement(l, now).backoffMs == BackoffFor(k + 1)
    ensures l.backoffMs * 2 < TWO32
  {
    if k > 0 {
      assert Pow2(k) == 2 * Pow2(k - 1);
      assert U32(l.backoffMs * 2) == l.backoffMs * 2;
    }
  }

  /** A wait that runs out ends no earlier than the backoff after the true time of the failure, even
      when the 32-bit clock has wrapped any number of times in between. */
  lemma WaitCoversBackoff(l: Loop, failedAt: nat, t1: nat, t2: nat)
    requires l.lastFailTs == U32(failedAt) && failedAt <= t1
    requires t1 + BackoffLeft(l, t1) <= t2
    ensures t2 >= failedAt + l.backoffMs
    // and no later than it must, as long as the failure is less than a turn of the clock ago
    ensures t1 < failedAt + TWO32 ==>
              t1 + BackoffLeft(l, t1) == if t1 < failedAt + l.backoffMs then failedAt + l.backoffMs else t1
  {
    UnsignedDifference(t1, failedAt);
    var elapsed := t1 - failedAt;
    assert U32(elapsed) <= elapsed;
  }

  lemma LogSnoc(c: Config, log: seq<Event>, e: Event)
    requires LogOk(c, log) && EventOk(c, log + [e], |log|)
    ensures LogOk(c, log + [e])
    ensures Failures(log + [e]) == match e { case Failed(_) => Failures(log) + 1
                                             case Targeted(_) => 0
                                             case Verified(_, _, _, _, _) => 0
                                             case _ => Failures(log) }
    ensures LastFailure(log + [e]) == if e.Failed? then e.at else LastFailure(log)
    ensures CurrentTarget(log + [e]) == if e.Targeted? then Some(e.component) else CurrentTarget(log)
  {
    var t := log + [e];
    assert t[..|log|] == log;
    forall i | 0 <= i < |t| ensures EventOk(c, t, i) {
      if i < |log| {
        assert EventOk(c, log, i);
        assert t[..i] == log[..i];
      }
    }
  }

  lemma AdoptKeepsInv(l: Loop, c: Config, manifest: seq<Component>, checkPasses: bool, bootOk: bool, t2: nat)
    requires Inv(l, c) && l.phase.Idle? && NewTarget(l, c, manifest).Some? && l.clock <= t2
    ensures Inv(AdoptTarget(l, NewTarget(l, c, manifest).value, checkPasses, bootOk).(clock := t2), c)
  {
    var found := NewTarget(l, c, manifest).value;
    var log1 := l.log + [Targeted(found)];
    assert log1[..|l.log|] == l.log;
    assert Failures(l.log) > 0 ==> l.backoffMs != 0;
    LogSnoc(c, l.log, Targeted(found));
    if checkPasses {
      var log2 := log1 + [CheckPassed];
      LogSnoc(c, log1, CheckPassed);
      LogSnoc(c, log2, SwitchRequested);
      assert log2 + [SwitchRequested] == l.log + [Targeted(found), CheckPassed, SwitchRequested];
    }
  }

  /** The log of a download that failed. */
  lemma FailedLog(c: Config, log: seq<Event>, t1: nat, t2: nat)
    requires LogOk(c, log) && EventOk(c, log + [Started(t1)], |log|)
    ensures var after := log + [Started(t1), Failed(t2)];
            && LogOk(c, after) && Failures(after) == Failures(log) + 1
            && LastFailure(after) == t2 && CurrentTarget(after) == CurrentTarget(log)
  {
    var mid := log + [Started(t1)];
    LogSnoc(c, log, Started(t1));
    LogSnoc(c, mid, Failed(t2));
    assert mid + [Failed(t2)] == log + [Started(t1), Failed(t2)];
  }

  /** The log of a download whose image was accepted. */
  lemma SwitchedLog(c: Config, log: seq<Event>, t1: nat, v: Event)
    requires LogOk(c, log) && EventOk(c, log + [Started(t1)], |log|)
    requires v.Verified? && v.flash == v.stream && Fetched(v.image, v.numbers, v.stream)
    requires CurrentTarget(log).Some?
    requires v.hashOk ==> c.sha(v.stream) == CurrentTarget(log).value.hash
    ensures var after := log + [Started(t1), v, SwitchRequested];
            LogOk(c, after) && Failures(after) == 0 && CurrentTarget(after) == CurrentTarget(log)
  {
    var one := log + [Started(t1)];
    var two := one + [v];
    LogSnoc(c, log, Started(t1));
    assert two[..|one|] == one;
    LogSnoc(c, one, v);
    LogSnoc(c, two, SwitchRequested);
    assert two + [SwitchRequested] == log + [Started(t1), v, SwitchRequested];
  }

  lemma FinishKeepsInv(l: Loop, c: Config, t1: nat, t2: nat, s: FirmwareDownload.Session,
                       image: seq<seq<Byte>>, hashOk: bool, bootOk: bool)
    requires Inv(l, c) && l.phase.Downloading? && l.clock <= t1 <= t2
    requires WaitIsOver(l, s) && s.completions <= 1
    requires s.result.OK? ==> s.flash == s.hashed && Fetched(image, s.numbers, s.hashed)
    ensures Inv(FinishDownload(l, c, t1, t2, s, image, hashOk, bootOk), c)
  {
    assert EventOk(c, l.log + [Started(t1)], |l.log|) by {
      assert (l.log + [Started(t1)])[..|l.log|] == l.log;
    }
    var digest := if hashOk then c.sha(s.hashed) else l.digest;
    if s.result.OK? && digest == l.target.hash {
      SwitchedLog(c, l.log, t1, VerifiedBy(s, image, hashOk));
    } else {
      BackoffClosedForm(l, t2, Failures(l.log));
      FailedLog(c, l.log, t1, t2);
    }
  }

  lemma StepKeepsInv(l: Loop, c: Config, a: Action)
    requires Inv(l, c) && Enabled(l, a)
    ensures Inv(Next(l, c, a), c)
  {
    match a
    case ManifestTaken(t1, t2, manifest, checkPasses, bootOk) =>
      if NewTarget(l, c, manifest).Some? {
        AdoptKeepsInv(l, c, manifest, checkPasses, bootOk, t2);
      }
    case WaitTimesOut(t1, t2) =>
      WaitCoversBackoff(l, LastFailure(l.log), t1, t2);
    case Download(t1, t2, image, enqueue, events, hashOk, bootOk) =>
      SessionIsOver(l, image, enqueue, events);
      FinishKeepsInv(l, c, t1, t2, SessionOf(l, image, enqueue, events), image, hashOk, bootOk);
  }

  /** With no completion left over, the loop stops waiting only when the session is over; and a result
      of OK means that flash holds the blocks fetched. */
  lemma SessionIsOver(l: Loop, image: seq<seq<Byte>>, enqueue: Status, events: seq<FirmwareDownload.Action>)
    requires |image| > 0 && l.completed == 0 && WaitIsOver(l, SessionOf(l, image, enqueue, events))
    ensures var s := SessionOf(l, image, enqueue, events);
            && (s.phase.NotStarted? || s.phase.Complete?)
            && s.completions == (if s.phase.Complete? then 1 else 0)
            && (s.result.OK? ==> s.flash == s.hashed && Fetched(image, s.numbers, s.hashed))
  {
    FirmwareDownload.SessionIsExact(l.flash, enqueue, image, events);
  }

  // ---------------------------------------------------------------- what each turn does

  /** Every download has one of two outcomes. If it ends with OK and the digest (of what was hashed, or
      whatever the buffer holds if the hash unit failed) is the target's, the image is switched to, the
      backoff is cleared, and the device reboots if the boot loader accepts. Otherwise it has failed, the
      backoff is raised, and the loop waits. */
  lemma DownloadOutcome(l: Loop, c: Config, a: Action)
    requires Inv(l, c) && Enabled(l, a) && a.Download?
    ensures var s := SessionOf(l, a.image, a.enqueue, a.events);
            var t, good := Next(l, c, a), s.result.OK? && (if a.hashOk then c.sha(s.hashed) else l.digest) == l.target.hash;
            && t.target == l.target && t.clock == a.t2 && t.flash == s.flash
            && (good ==>
                  && t.log == l.log + [Started(a.t1), Verified(a.image, s.numbers, s.hashed, s.flash, a.hashOk), SwitchRequested]
                  && t.backoffMs == 0 && (t.phase == if a.bootOk then Rebooting else Idle))
            && (!good ==>
                  && t.log == l.log + [Started(a.t1), Failed(a.t2)]
                  && t.phase == Idle && t.lastFailTs == U32(a.t2)
                  && t.backoffMs == Min(BACKOFF_INITIAL_MS * Pow2(Failures(l.log)), BACKOFF_MAX_MS))
  {
    BackoffClosedForm(l, a.t2, Failures(l.log));
  }

  /** A target whose blocks all arrive as they are asked for is installed, if the hash unit works and the
      server's image has the target's hash. */
  lemma GoodImageIsInstalled(l: Loop, c: Config, a: Action)
    requires Inv(l, c) && Enabled(l, a) && a.Download? && a.hashOk
    requires var s := SessionOf(l, a.image, a.enqueue, a.events);
             s.result.OK? && FirmwareDownload.InOrder(s.numbers)
    requires c.sha(FirmwareDownload.Concat(a.image)) == l.target.hash
    ensures var t := Next(l, c, a);
            && t.log != [] && t.log[|t.log| - 1] == SwitchRequested && t.flash == FirmwareDownload.Concat(a.image)
            && (t.phase.Rebooting? <==> a.bootOk)
  {
    DownloadOutcome(l, c, a);
    SessionIsOver(l, a.image, a.enqueue, a.events);
    var s := SessionOf(l, a.image, a.enqueue, a.events);
    WholeImage(a.image, s.numbers, s.hashed);
  }

  /** A manifest is acted on exactly when its first component of the configured package has another version
      than the running one and is not the target already backed off from: that component is adopted, with
      the backoff cleared; it is switched to at once if the candidate check passes, and downloaded unless
      the device then reboots. Any other manifest changes nothing. */
  lemma ManifestOutcome(l: Loop, c: Config, a: Action, i: nat)
    requires Enabled(l, a) && a.ManifestTaken?
    requires i <= |a.manifest| && forall j :: 0 <= j < i ==> a.manifest[j].package != c.package
    requires i < |a.manifest| ==> a.manifest[i].package == c.package
    ensures var t := Next(l, c, a);
            if i < |a.manifest| && a.manifest[i].version != c.version
               && (l.backoffMs == 0 || a.manifest[i].version != l.target.version)
            then
              && t.target == a.manifest[i] && t.backoffMs == 0 && t.clock == a.t2
              && t.log == l.log + [Targeted(a.manifest[i])] + (if a.checkPasses then [CheckPassed, SwitchRequested] else [])
              && (t.phase == if a.checkPasses && a.bootOk then Rebooting else Downloading)
            else t == l.(clock := a.t2)
  {
    if i < |a.manifest| {
      var found := FindComponent(a.manifest, c.package).value;
      var k :| IsFirstOf(a.manifest, c.package, k, found);
      assert k == i;
    }
  }

  /** A wait that runs out starts the download of the same target again. */
  lemma TimeoutOutcome(l: Loop, c: Config, a: Action)
    requires Enabled(l, a) && a.WaitTimesOut?
    ensures Next(l, c, a) == l.(clock := a.t2, phase := Downloading)
  {
  }

  /** The reachable states. */
  ghost predicate Reaches(l: Loop, c: Config, actions: seq<Action>, t: Loop)
    decreases |actions|
  {
    if actions == [] then t == l
    else Enabled(l, actions[0]) && Reaches(Next(l, c, actions[0]), c, actions[1..], t)
  }

  lemma {:induction false} RunKeepsInv(l: Loop, c: Config, actions: seq<Action>, t: Loop)
    requires Inv(l, c) && Reaches(l, c, actions, t)
    ensures Inv(t, c)
    decreases |actions|
  {
    if actions != [] {
      StepKeepsInv(l, c, actions[0]);
      RunKeepsInv(Next(l, c, actions[0]), c, actions[1..], t);
    }
  }

  /** On every run, the semaphore is at 0 when a download starts, and the download it then waits for
      is over when the wait is: nothing of it is outstanding that could give the semaphore later. So no
      download takes the completion of an earlier one for its own. */
  lemma NoCompletionIsLeftOver(c: Config, actions: seq<Action>, t: Loop, a: Action,
                               more: seq<FirmwareDownload.Action>)
    requires Reaches(Initial(), c, actions, t) && Enabled(t, a) && a.Download?
    ensures t.completed == 0 && Next(t, c, a).completed == 0
    ensures var s := SessionOf(t, a.image, a.enqueue, a.events);
            && (s.phase.NotStarted? || s.phase.Complete?)
            && s.completions == (if s.phase.Complete? then 1 else 0)
            && FirmwareDownload.Run(s, a.image, more) == s
  {
    RunKeepsInv(Initial(), c, actions, t);
    StepKeepsInv(t, c, a);
    SessionIsOver(t, a.image, a.enqueue, a.events);
    FirmwareDownload.CompletedIsFinal(SessionOf(t, a.image, a.enqueue, a.events), a.image, more);
  }

  /** On every run of the loop, the boot image is switched only directly after the candidate check
      passed or after a download whose whole stream, which is also the content of flash, has the hash
      of the current target (if the hash unit worked). The stream ends with the final block of the
      server's image, and is the whole image if every block was the one asked for. */
  lemma SwitchesOnlyVerifiedImages(c: Config, actions: seq<Action>, t: Loop, i: nat)
    requires Reaches(Initial(), c, actions, t)
    requires i < |t.log| && t.log[i].SwitchRequested?
    ensures i > 0 && CurrentTarget(t.log[..i]).Some?
    ensures var target := CurrentTarget(t.log[..i]).value;
            var e := t.log[i - 1];
            && target.package == c.package && target.version != c.version
            && (|| e.CheckPassed?
                || (e.Verified? && e.flash == e.stream && Fetched(e.image, e.numbers, e.stream)
                    && (FirmwareDownload.InOrder(e.numbers) ==> e.stream == FirmwareDownload.Concat(e.image))
                    && (e.hashOk ==> c.sha(e.stream) == target.hash)))
  {
    RunKeepsInv(Initial(), c, actions, t);
    assert EventOk(c, t.log, i);
    assert EventOk(c, t.log, i - 1);
    TargetIsGood(c, t.log, i);
    assert t.log[..i][..i - 1] == t.log[..i - 1];
    if t.log[i - 1].CheckPassed? {
      assert t.log[..i - 1][..i - 2] == t.log[..i - 2];
    } else {
      WholeImage(t.log[i - 1].image, t.log[i - 1].numbers, t.log[i - 1].stream);
    }
  }

  lemma WholeImage(image: seq<seq<Byte>>, numbers: seq<nat>, stream: seq<Byte>)
    requires Fetched(image, numbers, stream)
    ensures FirmwareDownload.InOrder(numbers) ==> stream == FirmwareDownload.Concat(image)
  {
    if FirmwareDownload.InOrder(numbers) {
      FirmwareDownload.PickedInOrder(image, numbers);
      assert image[..|numbers|] == image;
    }
  }

  lemma {:induction false} TargetIsGood(c: Config, log: seq<Event>, i: nat)
    requires LogOk(c, log) && i <= |log|
    ensures CurrentTarget(log[..i]).Some? ==>
              CurrentTarget(log[..i]).value.package == c.package
              && CurrentTarget(log[..i]).value.version != c.version
    decreases i
  {
    if i > 0 {
      assert log[..i][..i - 1] == log[..i - 1];
      assert EventOk(c, log, i - 1);
      TargetIsGood(c, log, i - 1);
    }
  }

  /** After k >= 1 consecutive failed downloads of an unchanged target, the next download of that
      target never starts before min(60000 * 2^(k-1), 86400000) ms have passed since the last
      failure, however many manifests repeat its version in between. */
  lemma DownloadsRespectBackoff(c: Config, actions: seq<Action>, t: Loop, i: nat)
    requires Reaches(Initial(), c, actions, t)
    requires i < |t.log|
    ensures var before := t.log[..i];
            var k := Failures(before);
            && (t.log[i].Started? && k > 0 ==>
                  t.log[i].at >= LastFailure(before) + Min(BACKOFF_INITIAL_MS * Pow2(k - 1), BACKOFF_MAX_MS))
            && (t.log[i].Targeted? && k > 0 ==>
                  CurrentTarget(before).Some?
                  && t.log[i].component.version != CurrentTarget(before).value.version)
  {
    RunKeepsInv(Initial(), c, actions, t);
    assert EventOk(c, t.log, i);
  }

  /** The result of the hash unit is not looked at. A successful download is therefore sure to be
      switched to only with the right hash exactly when the unit worked or the digest buffer does not
      happen to hold the target's hash already. */
  lemma SwitchIsSafeExactlyWhen(l: Loop, c: Config, hashOk: bool, bad: seq<Byte>)
    requires c.sha(bad) != l.target.hash
    ensures (forall s: FirmwareDownload.Session, image: seq<seq<Byte>>, t1: nat, t2: nat, bootOk: bool ::
               s.result.OK? && WaitIsOver(l, s) ==>
                 var t := FinishDownload(l, c, t1, t2, s, image, hashOk, bootOk);
                 t.log[|t.log| - 1].SwitchRequested? ==> c.sha(s.hashed) == l.target.hash)
            <==> hashOk || l.digest != l.target.hash
  {
    if !hashOk && l.digest == l.target.hash {
      var s := FirmwareDownload.Session(FirmwareDownload.Complete, 0, 0, |bad|, OK, bad, bad, [0], 1, 1);
      var t := FinishDownload(l, c, 0, 0, s, [bad], hashOk, false);
      assert t.log == l.log + [Started(0), VerifiedBy(s, [bad], hashOk), SwitchRequested];
      assert t.log[|t.log| - 1] == SwitchRequested;
    }
  }

  /** A run that shows the other side is reachable: a verified image whose switch is refused, then a
      second download of the same version during which the hash unit fails. */
  lemma StaleDigestIsReachable(c: Config, good: seq<Byte>, bad: seq<Byte>)
    requires c.sha(good) != c.sha(bad) && c.version != "2"
    ensures exists actions, t ::
              && Reaches(Initial(), c, actions, t)
              && |t.log| > 1 && t.log[|t.log| - 1].SwitchRequested?
              && t.log[|t.log| - 2].Verified? && CurrentTarget(t.log).Some?
              && c.sha(t.log[|t.log| - 2].stream) != CurrentTarget(t.log).value.hash
  {
    var target := Component(c.package, "2", c.sha(good), 0);
    var answer := [FirmwareDownload.Answered(OK, 0, FirmwareDownload.GOOD_FLASH, OK)];
    var offer := ManifestTaken(0, 0, [target], false, false);
    var first := Download(0, 0, [good], OK, answer, true, false);
    var second := Download(0, 0, [bad], OK, answer, false, false);
    var l1 := Next(Initial(), c, offer);
    assert l1.phase == Downloading && l1.target == target;
    OneBlockSession(l1, good);
    var l2 := Next(l1, c, first);
    assert l2.phase == Idle && l2.backoffMs == 0 && l2.digest == c.sha(good);
    var l3 := Next(l2, c, offer);
    assert l3.phase == Downloading && l3.target == target;
    OneBlockSession(l3, bad);
    var l4 := Next(l3, c, second);
    var v := VerifiedBy(SessionOf(l3, [bad], OK, answer), [bad], false);
    assert l4.log == l3.log + [Started(0), v, SwitchRequested];
    TargetOfTail(l3.log, Started(0), v);
    assert l3.log[|l3.log| - 1] == Targeted(target);
    ReachesFour(Initial(), c, offer, first, offer, second);
  }

  lemma TargetOfTail(log: seq<Event>, a: Event, b: Event)
    requires !a.Targeted? && !b.Targeted?
    ensures CurrentTarget(log + [a, b, SwitchRequested]) == CurrentTarget(log)
  {
    var t := log + [a, b, SwitchRequested];
    var n := |log|;
    assert t[..n + 2][..n + 1] == t[..n + 1] && t[..n + 1][..n] == log;
    assert CurrentTarget(t) == CurrentTarget(t[..n + 2]);
    assert t[..n + 2][n + 1] == b && CurrentTarget(t[..n + 2]) == CurrentTarget(t[..n + 1]);
    assert t[..n + 1][n] == a;
  }

  lemma ReachesFour(l: Loop, c: Config, a1: Action, a2: Action, a3: Action, a4: Action)
    requires Enabled(l, a1) && Enabled(Next(l, c, a1), a2)
    requires Enabled(Next(Next(l, c, a1), c, a2), a3)
    requires Enabled(Next(Next(Next(l, c, a1), c, a2), c, a3), a4)
    ensures Reaches(l, c, [a1, a2, a3, a4], Next(Next(Next(Next(l, c, a1), c, a2), c, a3), c, a4))
  {
    var l1 := Next(l, c, a1);
    var l2 := Next(l1, c, a2);
    var l3 := Next(l2, c, a3);
    var l4 := Next(l3, c, a4);
    assert [a1, a2, a3, a4][1..] == [a2, a3, a4] && [a2, a3, a4][1..] == [a3, a4];
    assert [a3, a4][1..] == [a4] && [a4][1..] == [];
    assert Reaches(l4, c, [], l4);
    assert Reaches(l3, c, [a4], l4);
    assert Reaches(l2, c, [a3, a4], l4);
    assert Reaches(l1, c, [a2, a3, a4], l4);
  }

  lemma OneBlockSession(l: Loop, block: seq<Byte>)
    ensures var answer := [FirmwareDownload.Answered(OK, 0, FirmwareDownload.GOOD_FLASH, OK)];
            var s := SessionOf(l, [block], OK, answer);
            s.phase.Complete? && s.completions == 1 && s.result == OK && s.hashed == s.flash == block
  {
    FirmwareDownload.StartInv(l.flash, OK, [block]);
    var s := FirmwareDownload.Start(l.flash, OK);
    var t := FirmwareDownload.BlockStored(s, [block], 0);
    var a := FirmwareDownload.Answered(OK, 0, FirmwareDownload.GOOD_FLASH, OK);
    FirmwareDownload.RunCons(s, [block], a, []);
    assert [a] + [] == [a] && [] + block == block;
  }

  /** The loop's state as the program keeps it, and its functions updating it in place. */
  class Updater {
    const config: Config
    var phase: Phase
    var target: Component
    var backoffMs: uint32
    var lastFailTs: uint32
    var digest: seq<Byte>
    var flash: seq<Byte>
    var completed: nat
    ghost var clock: nat
    ghost var log: seq<Event>

    ghost function View(): Loop
      reads this
    {
      Loop(phase, clock, target, backoffMs, lastFailTs, digest, flash, completed, log)
    }

    constructor (c: Config)
      ensures View() == Initial() && config == c
    {
      config, phase, target := c, Idle, Component("", "", [], 0);
      backoffMs, lastFailTs, digest, flash, completed, clock, log := 0, 0, [], [], 0, 0, [];
    }

    method BackoffResetInPlace()
      modifies this`backoffMs, this`lastFailTs
      ensures View() == BackoffReset(old(View()))
    {
      backoffMs, lastFailTs := 0, 0;
    }

    method BackoffIncrementInPlace(now: nat)
      modifies this`backoffMs, this`lastFailTs
      ensures View() == BackoffIncrement(old(View()), now)
    {
      if backoffMs == 0 {
        backoffMs := BACKOFF_INITIAL_MS;
      } else {
        backoffMs := U32(backoffMs * 2);
        if backoffMs > BACKOFF_MAX_MS {
          backoffMs := BACKOFF_MAX_MS;
        }
      }
      lastFailTs := U32(now);
    }

    /** The scan of `golioth_ota_find_component`. */
    method Find(manifest: seq<Component>, package: string) returns (r: Option<Component>)
      ensures r == FindComponent(manifest, package)
    {
      r := None;
      var i := 0;
      while i < |manifest|
        invariant 0 <= i <= |manifest| && r.None?
        invariant FindComponent(manifest, package) == FindComponent(manifest[i..], package)
      {
        if manifest[i].package == package {
          return Some(manifest[i]);
        }
        i := i + 1;
      }
    }

    /** One manifest taken by the inner loop: `received_new_target_component`, the candidate check
        and, when it passes, `fw_change_image_and_reboot`. */
    method TakeManifest(ghost t2: nat, manifest: seq<Component>, checkPasses: bool, bootOk: bool)
      requires phase.Idle? && clock <= t2
      modifies this
      ensures View() == Next(old(View()), config, ManifestTaken(old(clock), t2, manifest, checkPasses, bootOk))
    {
      clock := t2;
      var found := Find(manifest, config.package);
      if found.None? {
        return;
      }
      if found.value.version == config.version {
        return;
      }
      if backoffMs != 0 && found.value.version == target.version {
        return;
      }
      target := found.value;
      BackoffResetInPlace();
      log := log + [Targeted(target)];
      phase := Downloading;
      if checkPasses {
        log := log + [CheckPassed];
        log := log + [SwitchRequested];
        if bootOk {
          phase := Rebooting;
        }
      }
    }

    /** A download that failed: the backoff is already set. */
    method GiveUp(ghost t1: nat, t2: nat)
      modifies this`phase, this`log
      ensures View() == old(View()).(phase := Idle, log := old(log) + [Started(t1), Failed(t2)])
    {
      phase, log := Idle, log + [Started(t1), Failed(t2)];
    }

    /** `fw_change_image_and_reboot`, and the rebooting when the image change was accepted. */
    method ChangeImage(ghost t1: nat, ghost v: Event, bootOk: bool)
      modifies this`phase, this`log
      ensures View() == old(View()).(phase := if bootOk then Rebooting else Idle,
                                     log := old(log) + [Started(t1), v, SwitchRequested])
    {
      phase, log := Idle, log + [Started(t1), v, SwitchRequested];
      if bootOk {
        phase := Rebooting;
      }
    }

    /** The gives of the session and, if it was started, `k_sem_take` of _download_complete. */
    method WaitForCompletion(progress: FirmwareDownload.DownloadProgress)
      requires WaitIsOver(View(), progress.View())
      modifies this`completed
      ensures completed == CompletedAfter(old(View()), progress.View())
    {
      if !progress.phase.NotStarted? {
        completed := Min(1, completed + progress.completions);
        completed := completed - 1;
      }
    }

    /** The wait for _download_complete and the part of the outer loop after it. */
    method AfterDownload(progress: FirmwareDownload.DownloadProgress, ghost image: seq<seq<Byte>>,
                         ghost t1: nat, t2: nat, hashOk: bool, bootOk: bool)
      requires phase.Downloading? && WaitIsOver(View(), progress.View())
      modifies this
      ensures View() == FinishDownload(old(View()), config, t1, t2, progress.View(), image, hashOk, bootOk)
    {
      WaitForCompletion(progress);
      flash, clock := progress.flash, t2;
      BackoffIncrementInPlace(t2);
      if !progress.result.OK? {
        GiveUp(t1, t2);
        return;
      }
      if hashOk {
        digest := config.sha(progress.hashed);
      }
      if digest != target.hash {
        GiveUp(t1, t2);
        return;
      }
      BackoffResetInPlace();
      ChangeImage(t1, VerifiedBy(progress.View(), image, hashOk), bootOk);
    }
  }
}
