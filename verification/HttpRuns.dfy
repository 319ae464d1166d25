/**
 * What a run of an HTTP request amounts to, in terms of its settings and the events alone: the file system
 * around the request, the rules for its driver, and when the destination file is replaced.  The outcome of
 * every file operation is part of an event, so the results hold for every way the operating system can answer.
 */
module HttpRuns {
  import opened Bytes
  import opened Sha256Spec

  type Content = seq<bv8>

  datatype State = Error | Queued | Running | Done | Aborted

  const NOT_MODIFIED: int := 304

  /** The response would be larger than the limit; a negative limit is none. */
  predicate TooLarge(limit: int, size: nat) {
    limit >= 0 && size > limit
  }

  // ----- The files -----

  /** Where the file of the open handle is: it keeps its place in the file system when it is moved or removed. */
  datatype Handle = NoHandle | AtTmp | AtDest | Unlinked

  /** The destination, the temporary file next to it, and what was written to the open handle. */
  datatype Disk = Disk(dest: Option<Content>, tmp: Option<Content>, handle: Handle, written: Content)

  function OpenedTmp(d: Disk): Disk {
    d.(tmp := Some([]), handle := AtTmp, written := [])
  }

  /** How much of `data`, whose length is converted to 32 bits on the way, a device with `room` bytes takes. */
  function Fitting(data: Content, room: nat): (n: nat)
    ensures n <= |data|
  {
    Min(|data| % U32, room)
  }

  function WrittenTo(d: Disk, data: Content, room: nat): Disk {
    d.(written := d.written + data[..Fitting(data, room)])
  }

  /** After a close that fails the file holds some unknown part of what was written. */
  function ClosedFile(d: Disk, works: bool, torn: Content): Disk {
    var content := if works then d.written else torn;
    match d.handle
    case AtTmp => d.(tmp := Some(content), handle := NoHandle)
    case AtDest => d.(dest := Some(content), handle := NoHandle)
    case _ => d.(handle := NoHandle)
  }

  function ClosedIfOpen(d: Disk, works: bool, torn: Content): Disk {
    if d.handle.NoHandle? then d else ClosedFile(d, works, torn)
  }

  function RemovedTmp(d: Disk, works: bool): Disk {
    if works then d.(tmp := None, handle := if d.handle == AtTmp then Unlinked else d.handle) else d
  }

  predicate CanMove(d: Disk, works: bool) {
    works && d.tmp.Some?
  }

  /** The temporary file replaces the destination in one step. */
  function MovedTmp(d: Disk): Disk {
    d.(dest := d.tmp, tmp := None, handle := if d.handle == AtTmp then AtDest else d.handle)
  }

  // ----- Events -----

  datatype Event =
    | Skip
    | Start(fileTime: Option<nat>, mkdirWorks: bool, openWorks: bool)
    | Data(chunk: Content, room: nat)
    | Complete(outcome: State, status: int, closeWorks: bool, torn: Content,
               removeWorks: bool, renameWorks: bool, readable: bool)
    | Validate(success: bool, removeWorks: bool, renameWorks: bool)
    | Destruct(removeWorks: bool)

  datatype Config = Config(original: Option<Content>, writeToMemory: bool, writeToFile: bool, skipByFileTime: bool,
                           maxResponseSize: int, expectedSha256: Option<Content>, mustValidate: bool)

  /** How far the driver has got with a request. */
  datatype Phase = Fresh | Refused | Receiving | MustAbort | Finished | Destroyed

  datatype Progress = Progress(
    phase: Phase,
    started: bool,
    accepted: Content,     // the concatenation of the chunks taken
    hashed: Content,       // what of them went into the hash
    since: int,            // the modification time asked for, or -1
    pending: bool,         // validation is demanded and has not happened
    approved: bool,        // a validation of the request when it was done has succeeded
    done: bool,            // finished and successful
    status: int,
    placed: bool,          // the temporary file was moved over the destination
    disk: Disk
  )

  function Begin(c: Config): Progress {
    Progress(Fresh, false, [], [], -1, c.mustValidate, false, false, 0, false, Disk(c.original, None, NoHandle, []))
  }

  /**
   * The rules for the driver: one start, then data, then one completion, then destruction; no success after a
   * failed start or after a chunk that was not taken whole.  Validation is asked for at any time, once.
   */
  predicate Allowed(e: Event, phase: Phase, absorbed: nat, pending: bool) {
    match e
    case Skip => phase.Fresh?
    case Start(_, _, _) => phase.Fresh?
    case Data(_, _) => phase.Receiving?
    case Complete(outcome, _, _, _, _, _, _) =>
      !phase.Finished? && !phase.Destroyed?
      && (outcome == Error || outcome == Aborted
          || (outcome == Done && phase.Receiving? && 8 * absorbed < U64))
    case Validate(_, _, _) => !phase.Destroyed? && pending
    case Destruct(_) => phase.Finished?
  }

  predicate InForce(p: Progress, e: Event) {
    Allowed(e, p.phase, |p.hashed|, p.pending)
  }

  predicate HasDigest(content: Content, digest: Content) {
    8 * |content| < U64 && Sha256(content) == digest
  }

  predicate DigestOk(c: Config, content: Content) {
    c.expectedSha256.Some? ==> HasDigest(content, c.expectedSha256.value)
  }

  predicate Skippable(c: Config) {
    c.writeToFile && c.expectedSha256.Some? && c.original.Some? && HasDigest(c.original.value, c.expectedSha256.value)
  }

  /** A chunk is taken whole; a file takes no chunk whose length does not fit into 32 bits. */
  predicate Takes(c: Config, p: Progress, chunk: Content, room: nat) {
    !TooLarge(c.maxResponseSize, |p.accepted| + |chunk|) && (c.writeToFile ==> |chunk| < U32 && |chunk| <= room)
  }

  function AdvanceData(c: Config, p: Progress, chunk: Content, room: nat): Progress {
    if chunk == [] then p
    else if TooLarge(c.maxResponseSize, |p.accepted| + |chunk|) then p.(phase := MustAbort)
    else
      var t := p.(disk := if c.writeToFile then WrittenTo(p.disk, chunk, room) else p.disk);
      if Takes(c, p, chunk, room)
      then t.(accepted := p.accepted + chunk, hashed := p.hashed + chunk[..|chunk| % U32])
      else t.(phase := MustAbort)
  }

  /** The files when the handle, if there is one, has been closed. */
  function AfterClose(p: Progress, e: Event): Disk
    requires e.Complete?
  {
    ClosedIfOpen(p.disk, e.closeWorks, e.torn)
  }

  /** The response is reported as done, has the expected digest and is written. */
  predicate Received(c: Config, p: Progress, e: Event)
    requires e.Complete?
  {
    e.outcome == Done && DigestOk(c, p.hashed) && (!p.disk.handle.NoHandle? ==> e.closeWorks)
  }

  /** The last file operation of a completion succeeds: a read of the destination, none, or a move. */
  predicate SettlesWell(c: Config, p: Progress, e: Event)
    requires e.Complete?
  {
    if e.status == NOT_MODIFIED
    then p.since >= 0 && (c.writeToMemory ==> e.readable && AfterClose(p, e).dest.Some?)
    else p.pending || CanMove(AfterClose(p, e), e.renameWorks)
  }

  function AdvanceCompletion(c: Config, p: Progress, e: Event): Progress
    requires e.Complete?
  {
    var closed := AfterClose(p, e);
    var t := p.(phase := Finished, status := e.status);
    if !c.writeToFile then t.(done := Received(c, p, e))
    else if !(Received(c, p, e) && SettlesWell(c, p, e)) then
      t.(done := false, disk := RemovedTmp(closed, e.removeWorks))
    else if e.status == NOT_MODIFIED then t.(done := true, disk := RemovedTmp(closed, e.removeWorks))
    else if p.pending then t.(done := true, disk := closed)
    else t.(done := true, placed := true, disk := MovedTmp(closed))
  }

  /** A validation moves the temporary file, whatever it holds. */
  predicate ValidationMoves(p: Progress, e: Event)
    requires e.Validate?
  {
    e.success && p.status != NOT_MODIFIED && CanMove(p.disk, e.renameWorks)
  }

  function AdvanceValidation(p: Progress, e: Event): Progress
    requires e.Validate?
  {
    var t := p.(pending := false, approved := p.approved || (e.success && p.done));
    if ValidationMoves(p, e) then t.(placed := true, disk := MovedTmp(p.disk))
    else t.(done := p.done && e.success && p.status == NOT_MODIFIED && p.since >= 0,
            disk := RemovedTmp(p.disk, e.removeWorks))
  }

  function Advance(c: Config, p: Progress, e: Event): Progress {
    if !InForce(p, e) then p
    else match e
      case Skip => if Skippable(c) then p.(phase := Finished, done := true) else p
      case Start(fileTime, mkdirWorks, openWorks) =>
        var ok := c.writeToFile ==> mkdirWorks && openWorks;
        p.(phase := if ok then Receiving else Refused, started := ok,
           since := if c.writeToFile && c.skipByFileTime && fileTime.Some? then fileTime.value else p.since,
           disk := if c.writeToFile && ok then OpenedTmp(p.disk) else p.disk)
      case Data(chunk, room) => AdvanceData(c, p, chunk, room)
      case Complete(_, _, _, _, _, _, _) => AdvanceCompletion(c, p, e)
      case Validate(_, _, _) => AdvanceValidation(p, e)
      case Destruct(removeWorks) =>
        var t := if p.done && p.pending then AdvanceValidation(p, Validate(false, removeWorks, false)) else p;
        t.(phase := Destroyed)
  }

  /** A whole run of events; those that the rules exclude have no effect. */
  function Run(c: Config, events: seq<Event>): Progress {
    if events == [] then Begin(c) else Advance(c, Run(c, events[..|events| - 1]), events[|events| - 1])
  }

  lemma RunStep(c: Config, events: seq<Event>)
    ensures events == [] ==> Run(c, events) == Begin(c)
    ensures events != [] ==>
      Run(c, events) == Advance(c, Run(c, events[..|events| - 1]), events[|events| - 1])
  {
  }

  lemma RunSnoc(c: Config, events: seq<Event>, e: Event)
    ensures Run(c, events + [e]) == Advance(c, Run(c, events), e)
  {
    assert (events + [e])[..|events|] == events;
  }

  lemma RunNext(c: Config, events: seq<Event>, k: nat)
    requires k < |events|
    ensures Run(c, events[..k + 1]) == Advance(c, Run(c, events[..k]), events[k])
  {
    assert events[..k + 1][..k] == events[..k];
  }

  // ----- What every run keeps -----

  predicate Ended(p: Progress) {
    p.phase.Finished? || p.phase.Destroyed?
  }

  /** The destination is untouched until the temporary file is moved; the handle is open while data may arrive. */
  predicate FilesOk(c: Config, p: Progress) {
    && (!p.placed ==> p.disk.dest == c.original && p.disk.handle != AtDest)
    && (!p.disk.handle.NoHandle? <==> p.started && c.writeToFile && !Ended(p))
    && (!p.disk.handle.NoHandle? ==> (p.disk.handle == AtTmp <==> p.disk.tmp.Some?))
    && (!p.disk.handle.NoHandle? && p.pending ==> p.disk.handle == AtTmp)
    && (!p.started || !c.writeToFile ==> p.disk.tmp == None && !p.placed)
    && (p.phase.Receiving? && c.writeToFile ==> p.disk.written == p.accepted && p.hashed == p.accepted)
    && (c.writeToFile ==> p.hashed == p.accepted)
  }

  predicate PhaseOk(c: Config, p: Progress) {
    && (p.phase.Receiving? || p.phase.MustAbort? ==> p.started)
    && (p.phase.Fresh? || p.phase.Refused? ==> !p.started)
    && (!p.started ==> p.accepted == [] && p.hashed == [])
    && (!Ended(p) ==> !p.done && !p.approved)
    && (p.pending ==> c.mustValidate && !p.placed && !p.approved)
    && (p.phase.Destroyed? ==> !(p.done && p.pending))
  }

  /** The request is done and its file waits for validation. */
  predicate Waits(c: Config, p: Progress) {
    p.done && p.pending && p.started && c.writeToFile && p.status != 304
  }

  /** Then the whole trusted response is in the temporary file. */
  predicate WaitingOk(c: Config, p: Progress) {
    Waits(c, p) ==> p.disk.tmp == Some(p.accepted) && DigestOk(c, p.accepted)
  }

  predicate Sound(c: Config, p: Progress) {
    FilesOk(c, p) && PhaseOk(c, p) && WaitingOk(c, p)
  }

  /** A completion in one piece: when it ends well and where that leaves the files. */
  lemma CompletionIs(c: Config, p: Progress, e: Event, done: bool, disk: Disk)
    requires e.Complete? && InForce(p, e) && Sound(c, p)
    requires done <==>
      e.outcome == Done && DigestOk(c, p.hashed) && (c.writeToFile ==> e.closeWorks && SettlesWell(c, p, e))
    requires disk == (if !c.writeToFile then p.disk
                      else if !done || e.status == 304 then RemovedTmp(AfterClose(p, e), e.removeWorks)
                      else if p.pending then AfterClose(p, e)
                      else MovedTmp(AfterClose(p, e)))
    ensures AdvanceCompletion(c, p, e)
            == p.(phase := Finished, status := e.status, done := done, disk := disk,
                  placed := p.placed || (done && c.writeToFile && e.status != 304 && !p.pending))
  {
    hide HasDigest, ClosedIfOpen, RemovedTmp, MovedTmp, WaitingOk;
  }

  lemma BeginIsSound(c: Config)
    ensures Sound(c, Begin(c))
  {
  }

  lemma DataIsSound(c: Config, p: Progress, e: Event)
    requires Sound(c, p) && e.Data? && InForce(p, e)
    ensures Sound(c, AdvanceData(c, p, e.chunk, e.room))
  {
    hide HasDigest;
    if c.writeToFile && |e.chunk| < U32 && |e.chunk| <= e.room {
      assert Fitting(e.chunk, e.room) == |e.chunk| && e.chunk[..|e.chunk|] == e.chunk;
    }
  }

  lemma CompletionIsSound(c: Config, p: Progress, e: Event)
    requires Sound(c, p) && e.Complete? && InForce(p, e)
    ensures Sound(c, AdvanceCompletion(c, p, e))
  {
    hide HasDigest;
  }

  lemma ValidationIsSound(c: Config, p: Progress, e: Event)
    requires Sound(c, p) && e.Validate? && p.pending
    ensures Sound(c, AdvanceValidation(p, e)) && !AdvanceValidation(p, e).pending
  {
    hide HasDigest;
  }

  lemma AdvanceIsSound(c: Config, p: Progress, e: Event)
    requires Sound(c, p)
    ensures Sound(c, Advance(c, p, e))
  {
    hide HasDigest, AdvanceData, AdvanceCompletion, AdvanceValidation;
    if InForce(p, e) {
      match e
      case Data(_, _) => DataIsSound(c, p, e);
      case Complete(_, _, _, _, _, _, _) => CompletionIsSound(c, p, e);
      case Validate(_, _, _) => ValidationIsSound(c, p, e);
      case Destruct(removeWorks) =>
        if p.done && p.pending {
          ValidationIsSound(c, p, Validate(false, removeWorks, false));
          ValidationKeeps(p, Validate(false, removeWorks, false));
        }
      case _ =>
    }
  }

  lemma ValidationKeeps(p: Progress, e: Event)
    requires e.Validate?
    ensures var t := AdvanceValidation(p, e);
      && t.phase == p.phase && t.accepted == p.accepted && t.started == p.started && t.status == p.status
      && t.hashed == p.hashed && !t.pending && (t.done ==> p.done) && (p.placed ==> t.placed)
      && (!e.success ==> !t.done && t.placed == p.placed)
  {
  }

  lemma {:induction false} RunIsSound(c: Config, events: seq<Event>)
    ensures Sound(c, Run(c, events))
    decreases |events|
  {
    hide Sound, Advance, Begin;
    if events == [] {
      BeginIsSound(c);
    } else {
      RunIsSound(c, events[..|events| - 1]);
      AdvanceIsSound(c, Run(c, events[..|events| - 1]), events[|events| - 1]);
    }
  }

  // ----- The exact extent of safety -----

  /**
   * The destination is the untouched original file, or the request reports success for a modified response and
   * the destination holds all of it, with the expected digest, and validated if that is demanded.
   */
  predicate Safe(c: Config, p: Progress) {
    if !p.placed then p.disk.dest == c.original
    else
      && c.writeToFile && p.started && p.done && p.status != 304
      && p.disk.dest == Some(p.accepted) && DigestOk(c, p.accepted)
      && (c.mustValidate ==> p.approved)
  }

  /** A validation of a request that is not done moves the temporary file that is still there. */
  predicate MovesLeftover(p: Progress, e: Event) {
    e.Validate? && InForce(p, e) && !p.done && ValidationMoves(p, e)
  }

  /** A completion moves the file although validation was demanded: the validation was spent before. */
  predicate MovesUnapproved(c: Config, p: Progress, e: Event) {
    e.Complete? && InForce(p, e) && c.mustValidate && !p.pending && c.writeToFile
    && Received(c, p, e) && SettlesWell(c, p, e) && e.status != 304
  }

  lemma CompletionSafety(c: Config, p: Progress, e: Event)
    requires Sound(c, p) && Safe(c, p) && e.Complete? && InForce(p, e)
    ensures Safe(c, AdvanceCompletion(c, p, e)) <==> !MovesUnapproved(c, p, e)
  {
    hide HasDigest;
  }

  lemma ValidationSafety(c: Config, p: Progress, e: Event)
    requires Sound(c, p) && Safe(c, p) && e.Validate? && InForce(p, e)
    ensures Safe(c, AdvanceValidation(p, e)) <==> !MovesLeftover(p, e)
  {
    hide HasDigest;
  }

  /** One event keeps the destination safe exactly when it is neither of the two. */
  lemma SafetyStep(c: Config, p: Progress, e: Event)
    requires Sound(c, p) && Safe(c, p)
    ensures Safe(c, Advance(c, p, e)) <==> !MovesLeftover(p, e) && !MovesUnapproved(c, p, e)
  {
    hide HasDigest, AdvanceCompletion, AdvanceValidation;
    if InForce(p, e) {
      match e
      case Complete(_, _, _, _, _, _, _) => CompletionSafety(c, p, e);
      case Validate(_, _, _) => ValidationSafety(c, p, e);
      case Destruct(removeWorks) =>
        var v := Validate(false, removeWorks, false);
        if p.done && p.pending {
          ValidationSafety(c, p, v);
          ValidationKeeps(p, v);
        }
      case _ =>
    }
  }

  predicate MovesLeftoverAt(c: Config, events: seq<Event>, k: nat) {
    k < |events| && MovesLeftover(Run(c, events[..k]), events[k])
  }

  predicate MovesUnapprovedAt(c: Config, events: seq<Event>, k: nat) {
    k < |events| && MovesUnapproved(c, Run(c, events[..k]), events[k])
  }

  ghost predicate AlwaysSafe(c: Config, events: seq<Event>) {
    forall m: nat | m <= |events| :: Safe(c, Run(c, events[..m]))
  }

  lemma {:induction false} SafeUntil(c: Config, events: seq<Event>, m: nat)
    requires m <= |events|
    requires forall k: nat :: !MovesLeftoverAt(c, events, k) && !MovesUnapprovedAt(c, events, k)
    ensures Safe(c, Run(c, events[..m]))
  {
    hide Run, Safe, Sound, Advance, MovesLeftover, MovesUnapproved;
    if m == 0 {
      RunStep(c, events[..0]);
      BeginIsSafe(c);
    } else {
      SafeUntil(c, events, m - 1);
      RunIsSound(c, events[..m - 1]);
      RunNext(c, events, m - 1);
      SafetyStep(c, Run(c, events[..m - 1]), events[m - 1]);
      assert !MovesLeftoverAt(c, events, m - 1) && !MovesUnapprovedAt(c, events, m - 1);
    }
  }

  lemma BeginIsSafe(c: Config)
    ensures Safe(c, Begin(c))
  {
  }

  lemma UnsafeAfter(c: Config, events: seq<Event>, k: nat)
    requires MovesLeftoverAt(c, events, k) || MovesUnapprovedAt(c, events, k)
    ensures !AlwaysSafe(c, events)
  {
    hide Run, Safe, Sound, Advance, MovesLeftover, MovesUnapproved;
    RunIsSound(c, events[..k]);
    RunNext(c, events, k);
    if Safe(c, Run(c, events[..k])) {
      SafetyStep(c, Run(c, events[..k]), events[k]);
      assert !Safe(c, Run(c, events[..k + 1]));
    }
  }

  /**
   * Safety over every run, exactly.  At every moment the destination is the original file or the whole trusted
   * response of a successful request, if and only if no validation moves the temporary file of a request that is
   * not done, and no completion moves it after its validation was spent.
   */
  lemma SafeExactly(c: Config, events: seq<Event>)
    ensures AlwaysSafe(c, events) <==>
      forall k: nat :: !MovesLeftoverAt(c, events, k) && !MovesUnapprovedAt(c, events, k)
  {
    if k: nat :| MovesLeftoverAt(c, events, k) || MovesUnapprovedAt(c, events, k) {
      UnsafeAfter(c, events, k);
    } else {
      forall m: nat | m <= |events| ensures Safe(c, Run(c, events[..m])) {
        SafeUntil(c, events, m);
      }
    }
  }

  /** The owner asks for validation only when the state of the request says that it is done. */
  predicate ValidatesDone(c: Config, events: seq<Event>) {
    forall k: nat | k < |events| :: events[k].Validate? ==> Run(c, events[..k]).done || !Run(c, events[..k]).pending
  }

  lemma {:induction false} PendingUntilEnd(c: Config, events: seq<Event>, m: nat)
    requires m <= |events| && ValidatesDone(c, events)
    ensures Ended(Run(c, events[..m])) || Run(c, events[..m]).pending == c.mustValidate
  {
    hide Run, HasDigest;
    if m == 0 {
      RunStep(c, events[..0]);
    } else {
      PendingUntilEnd(c, events, m - 1);
      RunIsSound(c, events[..m - 1]);
      RunNext(c, events, m - 1);
      assert events[m - 1].Validate? ==> Run(c, events[..m - 1]).done || !Run(c, events[..m - 1]).pending;
    }
  }

  /** The guard a caller can check: every run that validates only a request that is done is safe. */
  lemma GuardedRunsAreSafe(c: Config, events: seq<Event>)
    requires ValidatesDone(c, events)
    ensures AlwaysSafe(c, events)
  {
    hide Run, AlwaysSafe, Received, SettlesWell;
    forall k: nat ensures !MovesLeftoverAt(c, events, k) && !MovesUnapprovedAt(c, events, k) {
      if k < |events| {
        PendingUntilEnd(c, events, k);
        assert events[k].Validate? ==> Run(c, events[..k]).done || !Run(c, events[..k]).pending;
      }
    }
    SafeExactly(c, events);
  }

  /**
   * Without the guard: a download that fails to close and whose file cannot be removed leaves unknown bytes,
   * which a validation moves over the destination; so does one while the download is still going on.
   */
  lemma LeftoverIsMoved(c: Config, chunk: Content, torn: Content)
    requires c.writeToFile && c.mustValidate && chunk != []
    requires |chunk| < U32 && !TooLarge(c.maxResponseSize, |chunk|)
    ensures var p := Run(c, [Start(None, true, true), Data(chunk, |chunk|),
                             Complete(Error, 200, false, torn, false, true, true), Validate(true, true, true)]);
      p.phase.Finished? && !p.done && p.placed && p.disk.dest == Some(torn)
    ensures var p := Run(c, [Start(None, true, true), Validate(true, true, true)]);
      p.phase.Receiving? && !p.done && p.placed && p.disk.dest == Some([])
  {
    var start, data := Start(None, true, true), Data(chunk, |chunk|);
    var complete, validate := Complete(Error, 200, false, torn, false, true, true), Validate(true, true, true);
    hide Advance, Begin;
    RunFour(c, start, data, complete, validate);
    RunTwo(c, start, validate);
    StartAdvances(c);
    var p := Advance(c, Begin(c), start);
    EarlyValidation(c, p);
    DataAdvances(c, p, chunk);
    FailedAdvances(c, Advance(c, p, data), torn);
    EarlyValidation(c, Advance(c, Advance(c, p, data), complete));
  }

  lemma RunTwo(c: Config, a: Event, b: Event)
    ensures Run(c, [a, b]) == Advance(c, Advance(c, Begin(c), a), b)
  {
    hide Run, Advance;
    RunStep(c, []);
    RunSnoc(c, [], a);
    RunSnoc(c, [a], b);
    assert [] + [a] == [a] && [a] + [b] == [a, b];
  }

  lemma RunFour(c: Config, a: Event, b: Event, d: Event, e: Event)
    ensures Run(c, [a, b, d, e]) == Advance(c, Advance(c, Advance(c, Advance(c, Begin(c), a), b), d), e)
  {
    hide Run, Advance;
    RunTwo(c, a, b);
    RunSnoc(c, [a, b], d);
    RunSnoc(c, [a, b, d], e);
    assert [a, b] + [d] == [a, b, d] && [a, b, d] + [e] == [a, b, d, e];
  }

  lemma StartAdvances(c: Config)
    requires c.writeToFile && c.mustValidate
    ensures var p := Advance(c, Begin(c), Start(None, true, true));
      && p.phase.Receiving? && p.pending && p.accepted == [] && p.status == 0 && !p.done
      && p.disk.handle == AtTmp && p.disk.tmp == Some([])
  {
  }

  lemma DataAdvances(c: Config, p: Progress, chunk: Content)
    requires p.phase.Receiving? && p.accepted == [] && |chunk| < U32 && !TooLarge(c.maxResponseSize, |chunk|)
    ensures var t := Advance(c, p, Data(chunk, |chunk|));
      t.phase.Receiving? && t.pending == p.pending && t.done == p.done && t.disk.handle == p.disk.handle
  {
  }

  lemma FailedAdvances(c: Config, p: Progress, torn: Content)
    requires p.phase.Receiving? && c.writeToFile && p.pending && p.disk.handle == AtTmp
    ensures var t := Advance(c, p, Complete(Error, 200, false, torn, false, true, true));
      t.phase.Finished? && !t.done && t.pending && t.status == 200 && t.disk.tmp == Some(torn)
  {
    hide HasDigest;
  }

  lemma EarlyValidation(c: Config, p: Progress)
    requires !p.phase.Destroyed? && p.pending && !p.done && p.status != 304 && p.disk.tmp.Some?
    ensures var t := Advance(c, p, Validate(true, true, true));
      t.phase == p.phase && !t.done && t.placed && t.disk.dest == p.disk.tmp
  {
  }

  // ----- When the destination is replaced -----

  /**
   * Event `k` takes effect and reports success for a modified response, with the expected digest of all chunks
   * accepted so far, and the temporary file is still in its place and closed without an error.
   */
  predicate CompletesAt(c: Config, events: seq<Event>, k: nat) {
    && k < |events| && events[k].Complete?
    && var p := Run(c, events[..k]);
    && p.phase.Receiving? && 8 * |p.accepted| < U64 && DigestOk(c, p.accepted) && p.disk.handle == AtTmp
    && events[k].outcome == Done && events[k].status != 304 && events[k].closeWorks
  }

  /**
   * Event `j` moves the file into place: the completion `k` itself, or, when validation is still demanded then, a
   * successful validation of the done request after it.
   */
  predicate MovesAt(c: Config, events: seq<Event>, k: nat, j: nat)
    requires k < |events| && events[k].Complete?
  {
    if Run(c, events[..k]).pending then
      && k < j < |events| && events[j].Validate? && events[j].success && events[j].renameWorks
      && var p := Run(c, events[..j]);
      p.phase.Finished? && p.done && p.pending
    else j == k && events[k].renameWorks
  }

  ghost predicate Replaces(c: Config, events: seq<Event>, k: nat, j: nat) {
    c.writeToFile && CompletesAt(c, events, k) && MovesAt(c, events, k, j)
  }

  /** What no event changes once the request has ended. */
  predicate Later(p: Progress, t: Progress) {
    Ended(t) && t.status == p.status && t.accepted == p.accepted && t.started == p.started && (p.placed ==> t.placed)
  }

  lemma AdvanceLater(c: Config, p: Progress, e: Event)
    requires Sound(c, p)
    ensures p.placed ==> Advance(c, p, e).placed
    ensures Ended(p) ==> Later(p, Advance(c, p, e))
  {
    hide AdvanceValidation, Received, SettlesWell, Takes;
    if e.Validate? {
      ValidationKeeps(p, e);
    } else if e.Destruct? {
      ValidationKeeps(p, Validate(false, e.removeWorks, false));
    }
  }

  lemma {:induction false} EndedStays(c: Config, events: seq<Event>, m: nat, n: nat)
    requires m <= n <= |events|
    ensures Run(c, events[..m]).placed ==> Run(c, events[..n]).placed
    ensures Ended(Run(c, events[..m])) ==> Later(Run(c, events[..m]), Run(c, events[..n]))
    decreases n
  {
    hide Run, Advance;
    if m < n {
      EndedStays(c, events, m, n - 1);
      RunNext(c, events, n - 1);
      RunIsSound(c, events[..n - 1]);
      hide Sound;
      AdvanceLater(c, Run(c, events[..n - 1]), events[n - 1]);
    }
  }

  lemma CompletionPlaces(c: Config, p: Progress, e: Event)
    requires Sound(c, p) && c.writeToFile && e.Complete? && InForce(p, e)
    ensures var t := AdvanceCompletion(c, p, e);
      && t.status == e.status && t.phase.Finished? && t.accepted == p.accepted && t.started == p.started
      && (p.phase.Receiving? && e.outcome == Done && e.status != 304 && e.closeWorks && DigestOk(c, p.accepted)
            && p.disk.handle == AtTmp && (p.pending || e.renameWorks)
          ==> t.done && t.placed == (p.placed || !p.pending))
  {
    hide HasDigest;
  }

  /** Events that replace the destination do so for good. */
  lemma ReplacesPlaces(c: Config, events: seq<Event>, k: nat, j: nat)
    requires Replaces(c, events, k, j)
    ensures Run(c, events).placed && Run(c, events).accepted == Run(c, events[..k]).accepted
  {
    hide Run, HasDigest, AdvanceCompletion;
    RunIsSound(c, events[..k]);
    RunNext(c, events, k);
    CompletionPlaces(c, Run(c, events[..k]), events[k]);
    if Run(c, events[..k]).pending {
      RunIsSound(c, events[..j]);
      EndedStays(c, events, k + 1, j);
      RunNext(c, events, j);
    }
    EndedStays(c, events, k + 1, |events|);
    EndedStays(c, events, j + 1, |events|);
    assert events[..|events|] == events;
  }

  lemma LeftoverPlaces(c: Config, events: seq<Event>, k: nat)
    requires MovesLeftoverAt(c, events, k)
    ensures Run(c, events).placed
    ensures Run(c, events[..k + 1]).disk.dest == Run(c, events[..k]).disk.tmp
  {
    hide Run;
    RunNext(c, events, k);
    EndedStays(c, events, k + 1, |events|);
    assert events[..|events|] == events;
  }

  lemma PrefixOfSnoc(events: seq<Event>, e: Event, k: nat)
    requires k <= |events|
    ensures (events + [e])[..k] == events[..k]
  {
  }

  lemma ReplacesKept(c: Config, events: seq<Event>, e: Event, k: nat, j: nat)
    requires Replaces(c, events, k, j)
    ensures Replaces(c, events + [e], k, j)
  {
    hide Run, DigestOk;
    PrefixOfSnoc(events, e, k);
    if Run(c, events[..k]).pending {
      PrefixOfSnoc(events, e, j);
    }
  }

  /** A request that is done and waits for validation was completed well; a replaced destination has its reason. */
  ghost predicate Explained(c: Config, events: seq<Event>) {
    var p := Run(c, events);
    && (Waits(c, p) ==> exists k: nat :: CompletesAt(c, events, k) && Run(c, events[..k]).pending)
    && (p.placed ==>
          (exists k: nat, j: nat :: Replaces(c, events, k, j)) || exists k: nat :: MovesLeftoverAt(c, events, k))
  }

  lemma ExplainedSame(c: Config, events: seq<Event>, e: Event)
    requires Explained(c, events)
    requires var p, t := Run(c, events), Run(c, events + [e]);
      && (t.placed ==> p.placed) && (Waits(c, t) ==> Waits(c, p))
    ensures Explained(c, events + [e])
  {
    hide Run, DigestOk, MovesLeftover;
    var all := events + [e];
    if k: nat :| CompletesAt(c, events, k) && Run(c, events[..k]).pending {
      PrefixOfSnoc(events, e, k);
      assert CompletesAt(c, all, k) && Run(c, all[..k]).pending;
    }
    if k: nat, j: nat :| Replaces(c, events, k, j) {
      ReplacesKept(c, events, e, k, j);
    }
    if k: nat :| MovesLeftoverAt(c, events, k) {
      PrefixOfSnoc(events, e, k);
      assert MovesLeftoverAt(c, all, k);
    }
  }

  /** A completion that leaves a done request, or moves the file, is one in the sense of `CompletesAt`. */
  lemma CompletionExplained(c: Config, p: Progress, e: Event)
    requires Sound(c, p) && e.Complete? && InForce(p, e)
    ensures var t := AdvanceCompletion(c, p, e);
      && t.pending == p.pending
      && (c.writeToFile && t.started && t.done && t.status != 304 && t.pending ==>
            p.phase.Receiving? && 8 * |p.accepted| < U64 && DigestOk(c, p.accepted)
            && e.outcome == Done && e.status != 304 && e.closeWorks)
      && (t.placed && !p.placed ==>
            && c.writeToFile && !p.pending && p.phase.Receiving? && 8 * |p.accepted| < U64 && DigestOk(c, p.accepted)
            && p.disk.handle == AtTmp && e.outcome == Done && e.status != 304 && e.closeWorks && e.renameWorks)
  {
    hide HasDigest;
  }

  lemma ExplainedNext(c: Config, events: seq<Event>, e: Event)
    requires Explained(c, events)
    ensures Explained(c, events + [e])
  {
    hide Run, HasDigest, AdvanceData, AdvanceCompletion, Received, SettlesWell;
    var all, n := events + [e], |events|;
    var p, t := Run(c, events), Run(c, all);
    RunIsSound(c, events);
    RunSnoc(c, events, e);
    PrefixOfSnoc(events, e, n);
    assert events[..n] == events;
    if InForce(p, e) && e.Complete? {
      CompletionExplained(c, p, e);
      if t.placed && !p.placed {
        assert CompletesAt(c, all, n) && MovesAt(c, all, n, n);
        assert Replaces(c, all, n, n);
      } else if Waits(c, t) {
        assert CompletesAt(c, all, n) && Run(c, all[..n]).pending;
        assert !t.placed;
      } else {
        ExplainedSame(c, events, e);
      }
    } else if InForce(p, e) && e.Validate? && ValidationMoves(p, e) {
      if p.done {
        var k: nat :| CompletesAt(c, events, k) && Run(c, events[..k]).pending;
        PrefixOfSnoc(events, e, k);
        assert CompletesAt(c, all, k) && MovesAt(c, all, k, n);
        assert Replaces(c, all, k, n);
      } else {
        assert MovesLeftoverAt(c, all, n);
      }
    } else {
      if e.Data? {
        DataKeeps(c, p, e);
      }
      ExplainedSame(c, events, e);
    }
  }

  lemma DataKeeps(c: Config, p: Progress, e: Event)
    requires e.Data?
    ensures var t := AdvanceData(c, p, e.chunk, e.room);
      && t.placed == p.placed && t.done == p.done && t.pending == p.pending
      && t.started == p.started && t.status == p.status
  {
    hide Takes;
  }

  lemma {:induction false} RunIsExplained(c: Config, events: seq<Event>)
    ensures Explained(c, events)
    decreases |events|
  {
    hide Explained;
    if events == [] {
      BeginIsExplained(c);
    } else {
      RunIsExplained(c, events[..|events| - 1]);
      ExplainedNext(c, events[..|events| - 1], events[|events| - 1]);
      assert events[..|events| - 1] + [events[|events| - 1]] == events;
    }
  }

  lemma BeginIsExplained(c: Config)
    ensures Explained(c, [])
  {
  }

  /**
   * The temporary file is moved over the destination if and only if a completion that took effect reported success
   * for a modified response with the expected digest and the file closed without an error, and it was moved by
   * that completion, or by a later successful validation of the done request if one was still demanded; or a
   * validation moved it when the request was not done.
   */
  lemma ReplacedExactly(c: Config, events: seq<Event>)
    ensures Run(c, events).placed <==>
      (exists k: nat, j: nat :: Replaces(c, events, k, j)) || exists k: nat :: MovesLeftoverAt(c, events, k)
  {
    RunIsExplained(c, events);
    hide Run, Replaces, MovesLeftover;
    if k: nat, j: nat :| Replaces(c, events, k, j) {
      ReplacesPlaces(c, events, k, j);
    }
    if k: nat :| MovesLeftoverAt(c, events, k) {
      LeftoverPlaces(c, events, k);
    }
  }

  // ----- After a failure -----

  /** An event that ends the request, or its validation, without replacing the destination. */
  predicate Fails(c: Config, p: Progress, e: Event) {
    match e
    case Complete(outcome, status, closeWorks, _, _, _, _) =>
      outcome != Done || status == 304 || !DigestOk(c, p.hashed) || (c.writeToFile && !closeWorks)
    case Validate(success, _, _) => p.phase.Finished? && !success
    case Destruct(_) => true
    case _ => false
  }

  /** Only a leftover temporary file can still be moved. */
  predicate Over(p: Progress) {
    Ended(p) && (p.done && p.pending ==> p.status == 304)
  }

  lemma OverStep(c: Config, p: Progress, e: Event)
    requires Over(p)
    ensures var t := Advance(c, p, e); Over(t) && (t.placed <==> p.placed || MovesLeftover(p, e))
    ensures p.disk.tmp == None ==> Advance(c, p, e).disk.tmp == None && !MovesLeftover(p, e)
  {
    hide HasDigest;
  }

  lemma {:induction false} OverRun(c: Config, events: seq<Event>, m: nat, n: nat)
    requires m <= n <= |events| && Over(Run(c, events[..m]))
    ensures Over(Run(c, events[..n]))
    ensures Run(c, events[..n]).placed <==>
      Run(c, events[..m]).placed || exists j: nat :: m <= j < n && MovesLeftoverAt(c, events, j)
    ensures Run(c, events[..m]).disk.tmp == None ==>
      Run(c, events[..n]).disk.tmp == None && Run(c, events[..n]).placed == Run(c, events[..m]).placed
    decreases n
  {
    hide Run, Advance, Over, MovesLeftover;
    if m < n {
      OverRun(c, events, m, n - 1);
      RunNext(c, events, n - 1);
      OverStep(c, Run(c, events[..n - 1]), events[n - 1]);
      assert MovesLeftoverAt(c, events, n - 1) <==> MovesLeftover(Run(c, events[..n - 1]), events[n - 1]);
    }
  }

  lemma FailureIsOver(c: Config, p: Progress, e: Event)
    requires Sound(c, p) && InForce(p, e) && Fails(c, p, e)
    ensures Over(Advance(c, p, e)) && Advance(c, p, e).placed == p.placed
  {
    hide HasDigest, Takes;
  }

  /**
   * After an error, an abort, an unmodified response, a wrong digest, or a failed or missing validation, the file
   * is moved if and only if it had been before, or a validation later moves what was left of it; with nothing
   * left, never.
   */
  lemma FailureIsFinalExactly(c: Config, events: seq<Event>, k: nat)
    requires k < |events| && InForce(Run(c, events[..k]), events[k]) && Fails(c, Run(c, events[..k]), events[k])
    ensures Run(c, events).placed <==>
      Run(c, events[..k]).placed || exists j: nat :: k < j < |events| && MovesLeftoverAt(c, events, j)
    ensures Run(c, events[..k + 1]).disk.tmp == None ==> Run(c, events).placed == Run(c, events[..k]).placed
  {
    hide Run, Advance, Over, MovesLeftover, Fails;
    RunIsSound(c, events[..k]);
    RunNext(c, events, k);
    FailureIsOver(c, Run(c, events[..k]), events[k]);
    OverRun(c, events, k + 1, |events|);
    assert events[..|events|] == events;
  }

  /** A completion with status 304 leaves the destination alone, at once and for good. */
  lemma UnmodifiedNeverPlaces(c: Config, events: seq<Event>, k: nat)
    requires k < |events| && InForce(Run(c, events[..k]), events[k])
    requires events[k].Complete? && events[k].status == 304
    ensures Run(c, events).placed == Run(c, events[..k]).placed
    ensures !Run(c, events[..k]).placed ==> Run(c, events).disk.dest == c.original
  {
    RunIsSound(c, events[..k]);
    RunIsSound(c, events);
    RunNext(c, events, k);
    CompletionPlacesStatus(c, Run(c, events[..k]), events[k]);
    hide Run, Advance, Over;
    assert Fails(c, Run(c, events[..k]), events[k]);
    FailureIsFinalExactly(c, events, k);
    forall j: nat | k < j < |events| ensures !MovesLeftoverAt(c, events, j) {
      EndedStays(c, events, k + 1, j);
    }
  }

  lemma CompletionPlacesStatus(c: Config, p: Progress, e: Event)
    requires e.Complete? && InForce(p, e)
    ensures var t := Advance(c, p, e); t.phase.Finished? && t.status == e.status
  {
    hide Received, SettlesWell;
  }

  /** What a completion or a validation leaves of the temporary file when it can be removed. */
  lemma TmpIsCleanedUp(c: Config, events: seq<Event>, k: nat)
    requires k < |events| && InForce(Run(c, events[..k]), events[k]) && c.writeToFile
    requires events[k].Complete? || events[k].Validate?
    requires events[k].removeWorks
    ensures var t := Run(c, events[..k + 1]);
      events[k].Validate? || events[k].status == 304 || !t.done ==> t.disk.tmp == None
  {
    hide Run, HasDigest;
    RunNext(c, events, k);
  }

  // ----- When a request is done -----

  /** The request is skipped because the destination already has the expected digest. */
  predicate Skips(c: Config, p: Progress, e: Event) {
    && e.Skip? && p.phase.Fresh?
    && c.writeToFile && c.expectedSha256.Some? && c.original.Some?
    && 8 * |c.original.value| < U64 && Sha256(c.original.value) == c.expectedSha256.value
  }

  /** The completion ends well. */
  predicate Succeeds(c: Config, p: Progress, e: Event) {
    && e.Complete? && p.phase.Receiving? && e.outcome == Done && 8 * |p.hashed| < U64
    && (c.expectedSha256.Some? ==> Sha256(p.hashed) == c.expectedSha256.value)
    && (c.writeToFile ==>
          && e.closeWorks
          && if e.status == 304
             then p.since >= 0 && (c.writeToMemory ==> e.readable && (p.disk.dest.Some? || p.disk.handle == AtDest))
             else p.pending || (e.renameWorks && p.disk.tmp.Some?))
  }

  /** The validation fails, or the request is destroyed without one. */
  predicate Spoils(p: Progress, e: Event) {
    && p.pending && !p.phase.Destroyed?
    && match e
       case Validate(success, _, renameWorks) =>
         !success || (if p.status == 304 then p.since < 0 else !renameWorks || p.disk.tmp == None)
       case Destruct(_) => p.phase.Finished?
       case _ => false
  }

  predicate EndsWellAt(c: Config, events: seq<Event>, k: nat) {
    && k < |events|
    && (Skips(c, Run(c, events[..k]), events[k]) || Succeeds(c, Run(c, events[..k]), events[k]))
  }

  predicate SpoiltAt(c: Config, events: seq<Event>, j: nat) {
    j < |events| && Spoils(Run(c, events[..j]), events[j])
  }

  lemma DoneStep(c: Config, p: Progress, e: Event)
    requires Sound(c, p)
    ensures Advance(c, p, e).done <==> Skips(c, p, e) || Succeeds(c, p, e) || (p.done && !Spoils(p, e))
  {
    hide Sha256;
  }

  lemma {:induction false} DoneUntil(c: Config, events: seq<Event>, m: nat)
    requires m <= |events|
    ensures Run(c, events[..m]).done <==>
      exists k: nat :: k < m && EndsWellAt(c, events, k) && forall j: nat | k < j < m :: !SpoiltAt(c, events, j)
  {
    hide Run, Advance, Skips, Succeeds, Spoils, Sound;
    if m == 0 {
      RunStep(c, events[..0]);
    } else {
      var n := m - 1;
      DoneUntil(c, events, n);
      RunNext(c, events, n);
      RunIsSound(c, events[..n]);
      DoneStep(c, Run(c, events[..n]), events[n]);
      assert EndsWellAt(c, events, n) <==>
        Skips(c, Run(c, events[..n]), events[n]) || Succeeds(c, Run(c, events[..n]), events[n]);
      assert SpoiltAt(c, events, n) <==> Spoils(Run(c, events[..n]), events[n]);
    }
  }

  /**
   * A request is done if and only if it was skipped with the expected file in place, or a completion ended well,
   * and no validation that was still to come failed or was left out.
   */
  lemma DoneExactly(c: Config, events: seq<Event>)
    ensures Run(c, events).done <==>
      exists k: nat :: EndsWellAt(c, events, k) && forall j: nat | k < j < |events| :: !SpoiltAt(c, events, j)
  {
    hide Run, Skips, Succeeds, Spoils;
    DoneUntil(c, events, |events|);
    assert events[..|events|] == events;
  }

  /** The request is started with the modification time of the destination. */
  predicate AsksAt(c: Config, events: seq<Event>, k: nat) {
    && k < |events| && events[k].Start? && Run(c, events[..k]).phase.Fresh?
    && c.writeToFile && c.skipByFileTime && events[k].fileTime.Some?
  }

  lemma SinceStep(c: Config, p: Progress, e: Event)
    ensures Advance(c, p, e).since >= 0 <==>
      p.since >= 0
      || (e.Start? && p.phase.Fresh? && c.writeToFile && c.skipByFileTime && e.fileTime.Some?)
  {
    hide AdvanceData, AdvanceCompletion, AdvanceValidation, Skippable, OpenedTmp;
    match e
    case Data(chunk, room) => DataKeepsSince(c, p, chunk, room);
    case Complete(_, _, _, _, _, _, _) => CompletionKeepsSince(c, p, e);
    case Validate(_, _, _) => ValidationKeepsSince(p, e);
    case Destruct(removeWorks) => ValidationKeepsSince(p, Validate(false, removeWorks, false));
    case _ =>
  }

  lemma DataKeepsSince(c: Config, p: Progress, chunk: Content, room: nat)
    ensures AdvanceData(c, p, chunk, room).since == p.since
  {
    hide Takes, WrittenTo;
  }

  lemma CompletionKeepsSince(c: Config, p: Progress, e: Event)
    requires e.Complete?
    ensures AdvanceCompletion(c, p, e).since == p.since
  {
    hide Received, SettlesWell, ClosedIfOpen, RemovedTmp, MovedTmp;
  }

  lemma ValidationKeepsSince(p: Progress, e: Event)
    requires e.Validate?
    ensures AdvanceValidation(p, e).since == p.since
  {
    hide RemovedTmp, MovedTmp, CanMove;
  }

  lemma {:induction false} AskedUntil(c: Config, events: seq<Event>, m: nat)
    requires m <= |events|
    ensures Run(c, events[..m]).since >= 0 <==> exists k: nat :: k < m && AsksAt(c, events, k)
  {
    hide Run, Advance;
    if m == 0 {
      RunStep(c, events[..0]);
    } else {
      AskedUntil(c, events, m - 1);
      RunNext(c, events, m - 1);
      SinceStep(c, Run(c, events[..m - 1]), events[m - 1]);
      assert AsksAt(c, events, m - 1) || !AsksAt(c, events, m - 1);
    }
  }

  predicate UnmodifiedOk(c: Config, p: Progress) {
    c.writeToFile && p.started && p.done && p.status == 304 ==> p.since >= 0
  }

  lemma UnmodifiedStep(c: Config, p: Progress, e: Event)
    requires Sound(c, p) && UnmodifiedOk(c, p)
    ensures UnmodifiedOk(c, Advance(c, p, e))
  {
    hide HasDigest;
  }

  lemma {:induction false} RunIsUnmodifiedOk(c: Config, events: seq<Event>)
    ensures UnmodifiedOk(c, Run(c, events))
    decreases |events|
  {
    RunStep(c, events);
    hide Run, Advance;
    if events != [] {
      RunIsUnmodifiedOk(c, events[..|events| - 1]);
      RunIsSound(c, events[..|events| - 1]);
      UnmodifiedStep(c, Run(c, events[..|events| - 1]), events[|events| - 1]);
    }
  }

  /** A file request that is done with status 304 was started with the modification time of the destination. */
  lemma UnmodifiedWasAsked(c: Config, events: seq<Event>)
    ensures var p := Run(c, events);
      c.writeToFile && p.started && p.done && p.status == 304 ==>
        p.since >= 0 && exists k: nat :: AsksAt(c, events, k)
  {
    hide Run;
    RunIsUnmodifiedOk(c, events);
    AskedUntil(c, events, |events|);
    assert events[..|events|] == events;
  }

  // ----- The limit on the size of the response -----

  /** A limit that is not negative is never exceeded by what is taken. */
  lemma {:induction false} LimitHolds(c: Config, events: seq<Event>)
    requires c.maxResponseSize >= 0
    ensures |Run(c, events).accepted| <= c.maxResponseSize
    decreases |events|
  {
    RunStep(c, events);
    hide Run;
    if events != [] {
      LimitHolds(c, events[..|events| - 1]);
      LimitStep(c, Run(c, events[..|events| - 1]), events[|events| - 1]);
    }
  }

  lemma LimitStep(c: Config, p: Progress, e: Event)
    requires 0 <= c.maxResponseSize && |p.accepted| <= c.maxResponseSize
    ensures |Advance(c, p, e).accepted| <= c.maxResponseSize
  {
    hide AdvanceData, AdvanceCompletion, AdvanceValidation, Skippable, OpenedTmp;
    match e
    case Data(chunk, room) => DataWithinLimit(c, p, chunk, room);
    case Complete(_, _, _, _, _, _, _) => CompletionKeepsAccepted(c, p, e);
    case Validate(_, _, _) => ValidationKeeps(p, e);
    case Destruct(removeWorks) => ValidationKeeps(p, Validate(false, removeWorks, false));
    case _ =>
  }

  lemma DataWithinLimit(c: Config, p: Progress, chunk: Content, room: nat)
    requires 0 <= c.maxResponseSize && |p.accepted| <= c.maxResponseSize
    ensures |AdvanceData(c, p, chunk, room).accepted| <= c.maxResponseSize
  {
    hide WrittenTo;
  }

  lemma CompletionKeepsAccepted(c: Config, p: Progress, e: Event)
    requires e.Complete?
    ensures AdvanceCompletion(c, p, e).accepted == p.accepted
  {
    hide Received, SettlesWell, ClosedIfOpen, RemovedTmp, MovedTmp;
  }

  /** The driver has to abort exactly when a chunk is over the limit or is not written whole. */
  lemma MustAbortExactly(c: Config, events: seq<Event>, k: nat)
    requires k < |events| && events[k].Data? && Run(c, events[..k]).phase.Receiving?
    ensures var size, room := |events[k].chunk|, events[k].room;
      Run(c, events[..k + 1]).phase.MustAbort? <==>
        && size > 0
        && ((c.maxResponseSize >= 0 && |Run(c, events[..k]).accepted| + size > c.maxResponseSize)
            || (c.writeToFile && (size >= 0x1_0000_0000 || size > room)))
  {
    hide Run;
    RunNext(c, events, k);
  }

  // ----- What the digest covers -----

  /** Event `k` is a chunk of 2^32 bytes or more that is taken. */
  predicate OversizedAt(c: Config, events: seq<Event>, k: nat) {
    && k < |events| && events[k].Data? && |events[k].chunk| >= U32
    && var p := Run(c, events[..k]);
    p.phase.Receiving? && Takes(c, p, events[k].chunk, events[k].room)
  }

  lemma DataGrows(c: Config, p: Progress, chunk: Content, room: nat)
    requires |p.hashed| <= |p.accepted| && (|p.hashed| == |p.accepted| <==> p.hashed == p.accepted)
    ensures var t := AdvanceData(c, p, chunk, room);
      && |t.hashed| <= |t.accepted| && (|t.hashed| == |t.accepted| <==> t.hashed == t.accepted)
      && (t.hashed == t.accepted <==> p.hashed == p.accepted && !(|chunk| >= U32 && Takes(c, p, chunk, room)))
  {
    if |chunk| < U32 {
      assert chunk[..|chunk| % U32] == chunk;
    }
  }

  lemma HashGrows(c: Config, p: Progress, e: Event)
    requires |p.hashed| <= |p.accepted| && (|p.hashed| == |p.accepted| <==> p.hashed == p.accepted)
    ensures var t := Advance(c, p, e);
      && |t.hashed| <= |t.accepted| && (|t.hashed| == |t.accepted| <==> t.hashed == t.accepted)
      && (t.hashed == t.accepted <==>
            p.hashed == p.accepted
            && !(e.Data? && |e.chunk| >= U32 && p.phase.Receiving? && Takes(c, p, e.chunk, e.room)))
  {
    hide AdvanceData, AdvanceValidation, Received, SettlesWell, Skippable, Takes;
    match e
    case Data(chunk, room) => DataGrows(c, p, chunk, room);
    case Validate(_, _, _) => ValidationKeeps(p, e);
    case Destruct(removeWorks) => ValidationKeeps(p, Validate(false, removeWorks, false));
    case _ =>
  }

  lemma OversizedNext(c: Config, front: seq<Event>, e: Event)
    ensures (exists k: nat :: OversizedAt(c, front + [e], k)) <==>
      (exists k: nat :: OversizedAt(c, front, k))
      || (e.Data? && |e.chunk| >= U32 && Run(c, front).phase.Receiving? && Takes(c, Run(c, front), e.chunk, e.room))
  {
    hide Run, Takes;
    var events := front + [e];
    PrefixOfSnoc(front, e, |front|);
    assert front[..|front|] == front;
    forall k: nat | k < |front| ensures OversizedAt(c, events, k) <==> OversizedAt(c, front, k) {
      PrefixOfSnoc(front, e, k);
    }
    assert OversizedAt(c, events, |front|) <==>
      e.Data? && |e.chunk| >= U32 && Run(c, front).phase.Receiving? && Takes(c, Run(c, front), e.chunk, e.room);
    if k: nat :| OversizedAt(c, front, k) {
      assert OversizedAt(c, events, k);
    }
    if k: nat :| OversizedAt(c, events, k) && k < |front| {
      assert OversizedAt(c, front, k);
    }
  }

  lemma {:induction false} DigestCovers(c: Config, events: seq<Event>)
    ensures var p := Run(c, events);
      && |p.hashed| <= |p.accepted| && (|p.hashed| == |p.accepted| <==> p.hashed == p.accepted)
      && (p.hashed == p.accepted <==> !exists k: nat :: OversizedAt(c, events, k))
    decreases |events|
  {
    RunStep(c, events);
    hide Run, Advance, OversizedAt;
    if events == [] {
      NoneOversized(c);
    } else {
      var front, e := events[..|events| - 1], events[|events| - 1];
      DigestCovers(c, front);
      HashGrows(c, Run(c, front), e);
      OversizedNext(c, front, e);
      assert front + [e] == events;
    }
  }

  lemma NoneOversized(c: Config)
    ensures forall k: nat :: !OversizedAt(c, [], k)
  {
  }

  /**
   * The digest covers everything accepted if and only if no chunk of 2^32 bytes or more was taken, which for a
   * file request never happens.
   */
  lemma DigestCoversExactly(c: Config, events: seq<Event>)
    ensures var p := Run(c, events);
      && |p.hashed| <= |p.accepted| && (|p.hashed| == |p.accepted| <==> p.hashed == p.accepted)
      && (p.hashed == p.accepted <==> !exists k: nat :: OversizedAt(c, events, k))
      && (c.writeToFile ==> p.hashed == p.accepted)
  {
    DigestCovers(c, events);
    RunIsSound(c, events);
  }

  // ----- A download that goes well -----

  /** One data event for each chunk, with room for all of it. */
  function DataEvents(chunks: seq<Content>): seq<Event> {
    seq(|chunks|, i requires 0 <= i < |chunks| => Data(chunks[i], |chunks[i]|))
  }

  lemma {:induction false} ChunksAreTaken(c: Config, start: Event, chunks: seq<Content>)
    requires start.Start? && (c.writeToFile ==> start.mkdirWorks && start.openWorks)
    requires forall i | 0 <= i < |chunks| :: |chunks[i]| < U32
    requires !TooLarge(c.maxResponseSize, |Flatten(chunks)|)
    ensures var p := Run(c, [start] + DataEvents(chunks));
      && p.phase.Receiving? && p.started && p.accepted == Flatten(chunks) && p.pending == c.mustValidate
      && !p.placed && (c.writeToFile ==> p.disk.handle == AtTmp)
    decreases |chunks|
  {
    hide Run;
    if chunks == [] {
      RunStep(c, []);
      RunSnoc(c, [], start);
      assert [] + [start] == [start] + DataEvents(chunks) == [start];
    } else {
      var front, last := chunks[..|chunks| - 1], chunks[|chunks| - 1];
      ChunksAreTaken(c, start, front);
      RunSnoc(c, [start] + DataEvents(front), Data(last, |last|));
      assert [start] + DataEvents(front) + [Data(last, |last|)] == [start] + DataEvents(chunks);
    }
  }

  /**
   * Completeness.  A file request whose chunks are within the limits and have the expected digest, in a run
   * in which every file operation works, replaces the destination with their concatenation: at once, or
   * with its validation when that is demanded.
   */
  lemma GoodRunReplaces(c: Config, start: Event, chunks: seq<Content>, complete: Event, validate: Event)
    requires c.writeToFile && start.Start? && start.mkdirWorks && start.openWorks
    requires forall i | 0 <= i < |chunks| :: |chunks[i]| < U32
    requires !TooLarge(c.maxResponseSize, |Flatten(chunks)|) && 8 * |Flatten(chunks)| < U64
    requires DigestOk(c, Flatten(chunks))
    requires complete.Complete? && complete.outcome == Done && complete.status != 304
    requires complete.closeWorks && complete.renameWorks
    requires validate.Validate? && validate.success && validate.renameWorks
    ensures var events := [start] + DataEvents(chunks) + [complete]; var p := Run(c, events);
      && p.done && (p.placed <==> !c.mustValidate)
      && p.disk.dest == if c.mustValidate then c.original else Some(Flatten(chunks))
    ensures var events := [start] + DataEvents(chunks) + [complete] + [validate]; var p := Run(c, events);
      p.done && p.placed && p.disk.dest == Some(Flatten(chunks))
  {
    hide Run, HasDigest;
    ChunksAreTaken(c, start, chunks);
    RunIsSound(c, [start] + DataEvents(chunks));
    RunSnoc(c, [start] + DataEvents(chunks), complete);
    RunSnoc(c, [start] + DataEvents(chunks) + [complete], validate);
  }
}
