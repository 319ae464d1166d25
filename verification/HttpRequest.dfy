/**
 * The HTTP request object: the response buffer, the running hash, the temporary file and the destination file.
 * The outcome of every file operation is a parameter.  The object is proved to follow the runs of `HttpRuns`.
 */
module HttpRequest {
  import opened Bytes
  import opened HttpRuns
  import opened Sha256Spec

  class Request {
    // Settings
    const writeToMemory: bool
    const writeToFile: bool
    const skipByFileTime: bool
    const maxResponseSize: int
    const expectedSha256: Option<Content>
    var validateBeforeOverwrite: bool
    var ifModifiedSince: int
    // Result
    var state: State
    var statusCode: int
    var hashed: Content                      // the updates of the running hash, see Sha256Impl.Context
    var actualSha256: Option<Content>
    var responseLength: nat
    var buffer: Content                      // the allocated block; its first responseLength bytes are in use
    var fileOpen: bool
    // The file system around the request
    var disk: Disk
    // History
    ghost const original: Option<Content>    // the destination before the request
    ghost const mustValidate: bool           // the initial setting of validateBeforeOverwrite
    ghost var accepted: Content              // the concatenation of the chunks taken by OnData
    ghost var started: bool                  // BeforeInit succeeded
    ghost var broken: bool                   // OnData reported a short write
    ghost var completed: Option<State>       // the state the driver reported, once it did
    ghost var approved: bool                 // OnValidation(true) was called when the request was done
    ghost var placed: bool                   // the temporary file was moved over the destination

    constructor (dest: Option<Content>, writeToMemory: bool, writeToFile: bool, skipByFileTime: bool,
                 maxResponseSize: int, expectedSha256: Option<Content>, validateBeforeOverwrite: bool)
      ensures Valid() && state == Queued && completed == None && disk.dest == dest == original
      ensures Settings() == Config(dest, writeToMemory, writeToFile, skipByFileTime, maxResponseSize, expectedSha256,
                                   validateBeforeOverwrite)
      ensures Matches(Begin(Settings()))
    {
      this.writeToMemory, this.writeToFile := writeToMemory, writeToFile;
      this.skipByFileTime, this.maxResponseSize := skipByFileTime, maxResponseSize;
      this.expectedSha256, this.validateBeforeOverwrite := expectedSha256, validateBeforeOverwrite;
      ifModifiedSince := -1;
      state, statusCode, actualSha256, responseLength, fileOpen := Queued, 0, None, 0, false;
      hashed := [];
      buffer := [];
      disk := Disk(dest, None, NoHandle, []);
      original, mustValidate := dest, validateBeforeOverwrite;
      accepted, started, broken, completed, approved, placed := [], false, false, None, false, false;
    }

    /**
     * While data may still arrive, the memory buffer and the file hold the accepted chunks, and for a file
     * request so does the hash.
     */
    ghost predicate InSync()
      reads this
    {
      && responseLength == |accepted|
      && (writeToMemory ==> responseLength <= |buffer| && buffer[..responseLength] == accepted)
      && (writeToFile ==> disk.written == accepted && hashed == accepted)
    }

    /** What the digest check lets through. */
    ghost predicate Trusted()
      reads this
    {
      && 8 * |hashed| < U64
      && (expectedSha256.Some? ==> HasDigest(hashed, expectedSha256.value))
    }

    ghost predicate Valid()
      reads this
    {
      && (fileOpen <==> started && writeToFile && completed == None)
      && (fileOpen <==> !disk.handle.NoHandle?)
      && (completed == None && started && !broken ==> InSync())
      && (completed == None && !started ==> accepted == [] && hashed == [] && responseLength == 0 && !broken)
      && (state == Done ==> completed.Some?)
    }

    ghost function Settings(): Config
      reads this
    {
      Config(original, writeToMemory, writeToFile, skipByFileTime, maxResponseSize, expectedSha256, mustValidate)
    }

    /** The request is where the events so far have brought it. */
    ghost predicate Matches(p: Progress)
      reads this
    {
      && (Ended(p) <==> completed.Some?)
      && (p.phase.Receiving? ==> !broken)
      && started == p.started && accepted == p.accepted && (!broken ==> hashed == p.hashed)
      && ifModifiedSince == p.since && validateBeforeOverwrite == p.pending && approved == p.approved
      && (state == Done <==> p.done) && statusCode == p.status
      && placed == p.placed && disk == p.disk
    }

    /** Prepares the temporary file.  The driver reports an error when this returns false. */
    method BeforeInit(fileTime: Option<nat>, mkdirWorks: bool, openWorks: bool) returns (ok: bool)
      requires Valid() && completed == None && !started
      modifies this`ifModifiedSince, this`fileOpen, this`started, this`disk
      ensures Valid() && started == ok
      ensures ok == (writeToFile ==> mkdirWorks && openWorks)
      ensures ifModifiedSince
              == if writeToFile && skipByFileTime && fileTime.Some? then fileTime.value else old(ifModifiedSince)
      ensures disk == if ok && writeToFile then OpenedTmp(old(disk)) else old(disk)
    {
      if writeToFile {
        if skipByFileTime && fileTime.Some? {
          ifModifiedSince := fileTime.value;
        }
        if !mkdirWorks {
          return false;
        }
        if !openWorks {
          return false;
        }
        disk := OpenedTmp(disk);
        fileOpen := true;
      }
      started := true;
      ok := true;
    }

    /** Room for `needed` bytes: at least 1 KiB, doubled until it is enough. */
    method Reserve(needed: nat)
      requires responseLength <= |buffer|
      modifies this`buffer
      ensures |buffer| >= needed && responseLength <= |buffer|
      ensures buffer[..responseLength] == old(buffer[..responseLength])
    {
      var size := Max(1024, |buffer|);
      while needed > size
        invariant size >= 1024 && size >= |buffer|
        decreases needed - size
      {
        size := size * 2;
      }
      if size != |buffer| {
        buffer := buffer + seq(size - |buffer|, _ => 0);
      }
    }

    /** Stores `data` behind the response received so far. */
    method Remember(data: Content)
      requires responseLength <= |buffer|
      modifies this`buffer
      ensures responseLength + |data| <= |buffer|
      ensures buffer[..responseLength + |data|] == old(buffer[..responseLength]) + data
    {
      Reserve(responseLength + |data|);
      buffer := buffer[..responseLength] + data + buffer[responseLength + |data|..];
    }

    /** Gives a chunk to the hash, to memory and to the file. */
    method Absorb(data: Content, room: nat) returns (result: nat)
      requires writeToMemory ==> responseLength <= |buffer|
      modifies this`responseLength, this`buffer, this`hashed, this`disk
      ensures hashed == old(hashed) + data[..|data| % U32] && responseLength == old(responseLength) + |data|
      ensures result == if writeToFile then Min(|data| % U32, room) else |data|
      ensures writeToMemory ==>
        responseLength <= |buffer| && buffer[..responseLength] == old(buffer[..responseLength]) + data
      ensures disk == if writeToFile then WrittenTo(old(disk), data, room) else old(disk)
    {
      hashed := hashed + data[..|data| % U32];
      result := |data|;
      if writeToMemory {
        Remember(data);
      }
      if writeToFile {
        result := Fitting(data, room);
        disk := WrittenTo(disk, data, room);
      }
      responseLength := responseLength + |data|;
    }

    /**
     * Takes a chunk.  A result other than its length asks the driver to abort: the response would become
     * too large, or the file did not take all of it.
     */
    method OnData(data: Content, room: nat) returns (result: nat)
      requires Valid() && completed == None && started && !broken
      modifies this`responseLength, this`buffer, this`accepted, this`broken, this`hashed, this`disk
      ensures Valid() && broken == (result != |data|)
      ensures accepted == if result == |data| then old(accepted) + data else old(accepted)
      ensures maxResponseSize >= 0 && old(|accepted|) + |data| > maxResponseSize ==>
        result == 0 && hashed == old(hashed) && responseLength == old(responseLength) && disk == old(disk)
      ensures maxResponseSize < 0 || old(|accepted|) + |data| <= maxResponseSize ==>
        && result == (if writeToFile then Min(|data| % U32, room) else |data|)
        && hashed == old(hashed) + data[..|data| % U32] && responseLength == old(responseLength) + |data|
        && disk == if writeToFile then WrittenTo(old(disk), data, room) else old(disk)
    {
      if maxResponseSize >= 0 && responseLength + |data| > maxResponseSize {
        broken := |data| != 0;
        assert accepted + [] == accepted;
        return 0;
      }
      if |data| == 0 {
        assert accepted + data == accepted && hashed + data[..0] == hashed && disk.written + data[..0] == disk.written;
        return 0;
      }
      result := Absorb(data, room);
      if result == |data| {
        accepted := accepted + data;
        assert data[..|data|] == data;
        assert writeToFile ==> |data| % U32 == |data|;
      } else {
        broken := true;
      }
    }

    /** The state after the digest check: success stays if and only if what was hashed can be trusted. */
    method CheckDigest(outcome: State) returns (checked: State)
      requires outcome == Done ==> 8 * |hashed| < U64
      modifies this`actualSha256
      ensures checked == Done <==> outcome == Done && Trusted()
      ensures checked == outcome || checked == Error
      ensures actualSha256 == if outcome == Done then Some(Sha256(hashed)) else old(actualSha256)
    {
      checked := outcome;
      if outcome == Done {
        actualSha256 := Some(Sha256(hashed));
        if expectedSha256.Some? && actualSha256.value != expectedSha256.value {
          checked := Error;
        }
      }
    }

    /** After an unmodified response the memory result is read from the existing destination. */
    method ReadDestination(readable: bool) returns (ok: bool)
      modifies this`buffer, this`responseLength
      ensures ok == (readable && disk.dest.Some?)
      ensures ok ==> responseLength <= |buffer| && buffer[..responseLength] == disk.dest.value
    {
      responseLength := 0;
      ok := readable && disk.dest.Some?;
      if ok {
        var content := disk.dest.value;
        buffer, responseLength := content, |content|;
        assert buffer[..responseLength] == content;
      }
    }

    method CloseFile(checked: State, closeWorks: bool, torn: Content) returns (result: State)
      requires fileOpen <==> !disk.handle.NoHandle?
      modifies this`fileOpen, this`disk
      ensures !fileOpen && result == if old(fileOpen) && !closeWorks then Error else checked
      ensures disk == ClosedIfOpen(old(disk), closeWorks, torn)
    {
      result := checked;
      if fileOpen {
        disk := ClosedFile(disk, closeWorks, torn);
        if !closeWorks {
          result := Error;
        }
      }
      fileOpen := false;
    }

    /** Moves the temporary file over the destination, or removes it when that fails. */
    method PlaceTmp(removeWorks: bool, renameWorks: bool) returns (moved: bool)
      modifies this`placed, this`disk
      ensures moved == CanMove(old(disk), renameWorks) && placed == (old(placed) || moved)
      ensures disk == if moved then MovedTmp(old(disk)) else RemovedTmp(old(disk), removeWorks)
    {
      moved := CanMove(disk, renameWorks);
      if moved {
        disk := MovedTmp(disk);
        placed := true;
      } else {
        disk := RemovedTmp(disk, removeWorks);
      }
    }

    /** What becomes of the closed temporary file. */
    method SettleFile(checked: State, removeWorks: bool, renameWorks: bool, readable: bool) returns (result: State)
      requires checked == Done || checked == Error || checked == Aborted
      modifies this`buffer, this`responseLength, this`placed, this`disk
      ensures result == checked || result == Error
      ensures result == Done <==>
        && checked == Done
        && (if statusCode == 304 then ifModifiedSince >= 0 && (writeToMemory ==> readable && old(disk.dest).Some?)
            else validateBeforeOverwrite || (renameWorks && old(disk.tmp).Some?))
      ensures placed == (old(placed) || (result == Done && statusCode != 304 && !validateBeforeOverwrite))
      ensures disk == if result != Done || statusCode == 304 then RemovedTmp(old(disk), removeWorks)
                      else if validateBeforeOverwrite then old(disk)
                      else MovedTmp(old(disk))
      ensures result == Done && statusCode == 304 && writeToMemory ==>
        responseLength <= |buffer| && disk.dest == Some(buffer[..responseLength])
      ensures statusCode != 304 ==> buffer == old(buffer) && responseLength == old(responseLength)
    {
      result := checked;
      if result == Error || result == Aborted {
        disk := RemovedTmp(disk, removeWorks);
      } else if statusCode == NOT_MODIFIED {
        disk := RemovedTmp(disk, removeWorks);
        if ifModifiedSince < 0 {
          result := Error;
        } else if writeToMemory {
          var read := ReadDestination(readable);
          if !read {
            result := Error;
          }
        }
      } else if !validateBeforeOverwrite {
        var moved := PlaceTmp(removeWorks, renameWorks);
        if !moved {
          result := Error;
        }
      }
    }

    /** The digest check and the file operations of a completion. */
    method FinishFiles(outcome: State, closeWorks: bool, torn: Content, removeWorks: bool, renameWorks: bool,
                       readable: bool)
      returns (result: State)
      requires outcome == Done || outcome == Error || outcome == Aborted
      requires outcome == Done ==> 8 * |hashed| < U64
      requires fileOpen <==> !disk.handle.NoHandle?
      requires fileOpen ==> writeToFile
      modifies this`actualSha256, this`fileOpen, this`buffer, this`responseLength, this`placed, this`disk
      ensures !fileOpen && (result == Done || result == Error || result == Aborted)
      ensures outcome == Done ==> actualSha256 == Some(Sha256(hashed))
      ensures var closed := ClosedIfOpen(old(disk), closeWorks, torn);
        && (result == Done <==>
              && outcome == Done && (expectedSha256.Some? ==> Sha256(hashed) == expectedSha256.value)
              && (old(fileOpen) ==> closeWorks)
              && (writeToFile ==>
                    if statusCode == 304 then ifModifiedSince >= 0 && (writeToMemory ==> readable && closed.dest.Some?)
                    else validateBeforeOverwrite || (renameWorks && closed.tmp.Some?)))
        && disk == (if !writeToFile then old(disk)
                    else if result != Done || statusCode == 304 then RemovedTmp(closed, removeWorks)
                    else if validateBeforeOverwrite then closed
                    else MovedTmp(closed))
      ensures placed == (old(placed) || (result == Done && writeToFile && statusCode != 304
                                         && !validateBeforeOverwrite))
      ensures result == Done && writeToFile && writeToMemory && statusCode == 304 ==>
        responseLength <= |buffer| && disk.dest == Some(buffer[..responseLength])
      ensures !writeToFile || statusCode != 304 ==>
        buffer == old(buffer) && responseLength == old(responseLength)
    {
      hide Sha256, ClosedFile, RemovedTmp, MovedTmp;
      result := CheckDigest(outcome);
      if writeToFile {
        result := CloseFile(result, closeWorks, torn);
        result := SettleFile(result, removeWorks, renameWorks, readable);
      }
    }

    /**
     * Completion.  The destination is replaced when the request ends well, is a file request, is not an
     * unmodified response and needs no validation any more.
     */
    method OnCompletionInternal(outcome: State, status: int, closeWorks: bool, torn: Content,
                                removeWorks: bool, renameWorks: bool, readable: bool)
      requires Valid() && completed == None
      requires outcome == Done || outcome == Error || outcome == Aborted
      requires outcome == Done ==> started && !broken && 8 * |hashed| < U64
      modifies this`statusCode, this`state, this`actualSha256, this`fileOpen, this`buffer, this`responseLength,
               this`completed, this`placed, this`disk
      ensures Valid() && completed == Some(outcome) && !fileOpen && statusCode == status
      ensures outcome == Done ==> actualSha256 == Some(Sha256(hashed))
      ensures var closed := ClosedIfOpen(old(disk), closeWorks, torn);
        && (state == Done <==>
              && outcome == Done && (expectedSha256.Some? ==> Sha256(hashed) == expectedSha256.value)
              && (writeToFile ==>
                    && closeWorks
                    && if status == 304 then ifModifiedSince >= 0 && (writeToMemory ==> readable && closed.dest.Some?)
                       else validateBeforeOverwrite || (renameWorks && closed.tmp.Some?)))
        && disk == (if !writeToFile then old(disk)
                    else if state != Done || status == 304 then RemovedTmp(closed, removeWorks)
                    else if validateBeforeOverwrite then closed
                    else MovedTmp(closed))
      ensures placed == (old(placed) || (state == Done && writeToFile && status != 304
                                         && !validateBeforeOverwrite))
      ensures state == Done && writeToMemory ==>
        && responseLength <= |buffer|
        && if writeToFile && status == 304 then disk.dest == Some(buffer[..responseLength])
           else buffer[..responseLength] == accepted
    {
      hide Sha256;
      statusCode := status;
      completed := Some(outcome);
      state := FinishFiles(outcome, closeWorks, torn, removeWorks, renameWorks, readable);
    }

    /** The temporary file is moved over the destination by a validation. */
    ghost predicate Moves(success: bool, renameWorks: bool, d: Disk)
      reads this
    {
      success && statusCode != 304 && CanMove(d, renameWorks)
    }

    /** The file operation of a validation, and what it makes of the state. */
    method Judge(success: bool, removeWorks: bool, renameWorks: bool)
      modifies this`state, this`placed, this`disk
      ensures placed == (old(placed) || Moves(success, renameWorks, old(disk)))
      ensures disk == if Moves(success, renameWorks, old(disk)) then MovedTmp(old(disk))
                      else RemovedTmp(old(disk), removeWorks)
      ensures state == if success && (if statusCode == 304 then ifModifiedSince >= 0
                                      else CanMove(old(disk), renameWorks)) then old(state) else Error
    {
      if success {
        if statusCode == NOT_MODIFIED {
          if ifModifiedSince < 0 {
            state := Error;
          }
          disk := RemovedTmp(disk, removeWorks);
          return;
        }
        var moved := PlaceTmp(removeWorks, renameWorks);
        if !moved {
          state := Error;
        }
      } else {
        state := Error;
        disk := RemovedTmp(disk, removeWorks);
      }
    }

    /**
     * Validation by the owner of the request.  Whatever the state, a temporary file that is there is moved or
     * removed.
     */
    method OnValidation(success: bool, removeWorks: bool, renameWorks: bool)
      requires Valid() && validateBeforeOverwrite
      modifies this`validateBeforeOverwrite, this`state, this`approved, this`placed, this`disk
      ensures Valid() && !validateBeforeOverwrite && approved == (old(approved) || (success && old(state) == Done))
      ensures placed == (old(placed) || Moves(success, renameWorks, old(disk)))
      ensures disk == if Moves(success, renameWorks, old(disk)) then MovedTmp(old(disk))
                      else RemovedTmp(old(disk), removeWorks)
      ensures state == if success && (if statusCode == 304 then ifModifiedSince >= 0
                                      else CanMove(old(disk), renameWorks)) then old(state) else Error
    {
      hide CanMove;
      validateBeforeOverwrite := false;
      approved := approved || (success && state == Done);
      Judge(success, removeWorks, renameWorks);
    }

    /** Destruction: a request that was never validated counts as not valid. */
    method Destroy(removeWorks: bool)
      requires Valid() && !fileOpen
      modifies this`validateBeforeOverwrite, this`state, this`approved, this`placed, this`disk
      ensures Valid() && disk.dest == old(disk.dest) && placed == old(placed) && approved == old(approved)
      ensures if old(state == Done && validateBeforeOverwrite)
              then state == Error && !validateBeforeOverwrite && disk == RemovedTmp(old(disk), removeWorks)
              else state == old(state) && validateBeforeOverwrite == old(validateBeforeOverwrite) && disk == old(disk)
    {
      if state == Done && validateBeforeOverwrite {
        OnValidation(false, removeWorks, false);
      }
    }

    /** The destination already holds the expected file, so the driver reports success without a request. */
    method SkipRequest() returns (skip: bool)
      requires Valid() && completed == None && !started
      requires disk.dest.Some? ==> 8 * |disk.dest.value| < U64
      modifies this`state, this`completed
      ensures Valid() && skip == completed.Some? && state == if skip then Done else old(state)
      ensures skip <==> writeToFile && expectedSha256.Some? && disk.dest.Some?
                        && Sha256(disk.dest.value) == expectedSha256.value
    {
      hide Sha256;
      skip := writeToFile && expectedSha256.Some? && disk.dest.Some? && Sha256(disk.dest.value) == expectedSha256.value;
      if skip {
        state := Done;
        completed := Some(Done);
      }
    }
  }

  // ----- The object follows the run -----

  /** The events before any data; the driver marks the request as running. */
  method PerformStart(request: Request, e: Event, phase: Phase, ghost p: Progress) returns (next: Phase)
    requires e.Skip? || e.Start?
    requires request.Valid() && request.Matches(p) && phase == p.phase && Sound(request.Settings(), p)
    requires request.original.Some? ==> 8 * |request.original.value| < U64
    modifies request
    ensures request.Settings() == old(request.Settings())
    ensures request.Valid() && request.Matches(Advance(request.Settings(), p, e))
    ensures next == Advance(request.Settings(), p, e).phase
  {
    hide Sha256;
    next := phase;
    if Allowed(e, phase, |request.hashed|, request.validateBeforeOverwrite) {
      match e
      case Skip =>
        var skipped := request.SkipRequest();
        next := if skipped then Finished else Fresh;
      case Start(fileTime, mkdirWorks, openWorks) =>
        var ok := request.BeforeInit(fileTime, mkdirWorks, openWorks);
        if ok {
          request.state := Running;
        }
        next := if ok then Receiving else Refused;
    }
  }

  /** A chunk. */
  method PerformData(request: Request, e: Event, phase: Phase, ghost p: Progress) returns (next: Phase)
    requires e.Data?
    requires request.Valid() && request.Matches(p) && phase == p.phase && Sound(request.Settings(), p)
    requires request.original.Some? ==> 8 * |request.original.value| < U64
    modifies request
    ensures request.Settings() == old(request.Settings())
    ensures request.Valid() && request.Matches(Advance(request.Settings(), p, e))
    ensures next == Advance(request.Settings(), p, e).phase
  {
    hide Sha256;
    next := phase;
    if Allowed(e, phase, |request.hashed|, request.validateBeforeOverwrite) {
      var taken := request.OnData(e.chunk, e.room);
      next := if taken == |e.chunk| then Receiving else MustAbort;
    }
  }

  /** The completion. */
  method PerformCompletion(request: Request, e: Event, phase: Phase, ghost p: Progress) returns (next: Phase)
    requires e.Complete?
    requires request.Valid() && request.Matches(p) && phase == p.phase && Sound(request.Settings(), p)
    requires request.original.Some? ==> 8 * |request.original.value| < U64
    modifies request
    ensures request.Settings() == old(request.Settings())
    ensures request.Valid() && request.Matches(Advance(request.Settings(), p, e))
    ensures next == Advance(request.Settings(), p, e).phase
  {
    hide Sha256, ClosedIfOpen, RemovedTmp, MovedTmp, AdvanceCompletion, FilesOk, WaitingOk;
    hide Request.Valid, Request.InSync;
    next := phase;
    if Allowed(e, phase, |request.hashed|, request.validateBeforeOverwrite) {
      request.OnCompletionInternal(e.outcome, e.status, e.closeWorks, e.torn, e.removeWorks, e.renameWorks, e.readable);
      CompletionIs(request.Settings(), p, e, request.state == Done, request.disk);
      next := Finished;
    }
  }

  /** Validation and destruction. */
  method PerformLater(request: Request, e: Event, phase: Phase, ghost p: Progress) returns (next: Phase)
    requires e.Validate? || e.Destruct?
    requires request.Valid() && request.Matches(p) && phase == p.phase && Sound(request.Settings(), p)
    requires request.original.Some? ==> 8 * |request.original.value| < U64
    modifies request
    ensures request.Settings() == old(request.Settings())
    ensures request.Valid() && request.Matches(Advance(request.Settings(), p, e))
    ensures next == Advance(request.Settings(), p, e).phase
  {
    hide Sha256, MovedTmp, RemovedTmp;
    next := phase;
    if Allowed(e, phase, |request.hashed|, request.validateBeforeOverwrite) {
      match e
      case Validate(success, removeWorks, renameWorks) =>
        request.OnValidation(success, removeWorks, renameWorks);
      case Destruct(removeWorks) =>
        request.Destroy(removeWorks);
        next := Destroyed;
    }
  }

  /** One event, if the rules allow it. */
  method Perform(request: Request, e: Event, phase: Phase, ghost p: Progress) returns (next: Phase)
    requires request.Valid() && request.Matches(p) && phase == p.phase && Sound(request.Settings(), p)
    requires request.original.Some? ==> 8 * |request.original.value| < U64
    modifies request
    ensures request.Settings() == old(request.Settings())
    ensures request.Valid() && request.Matches(Advance(request.Settings(), p, e))
    ensures next == Advance(request.Settings(), p, e).phase
  {
    hide Sha256, Advance, Sound;
    match e
    case Skip => next := PerformStart(request, e, phase, p);
    case Start(_, _, _) => next := PerformStart(request, e, phase, p);
    case Data(_, _) => next := PerformData(request, e, phase, p);
    case Complete(_, _, _, _, _, _, _) => next := PerformCompletion(request, e, phase, p);
    case Validate(_, _, _) => next := PerformLater(request, e, phase, p);
    case Destruct(_) => next := PerformLater(request, e, phase, p);
  }

  /**
   * The request object follows the events exactly, however the file operations end, so what is proved about runs
   * holds of it and of the files around it.
   */
  method Drive(request: Request, events: seq<Event>)
    requires request.Valid() && request.Matches(Begin(request.Settings()))
    requires request.original.Some? ==> 8 * |request.original.value| < U64
    modifies request
    ensures request.Settings() == old(request.Settings())
    ensures request.Valid() && request.Matches(Run(request.Settings(), events))
  {
    hide Sha256, Run, Advance, Sound;
    RunStep(request.Settings(), []);
    var phase := Fresh;
    for i := 0 to |events|
      invariant request.Settings() == old(request.Settings())
      invariant request.Valid() && request.Matches(Run(request.Settings(), events[..i]))
      invariant phase == Run(request.Settings(), events[..i]).phase
    {
      RunNext(request.Settings(), events, i);
      RunIsSound(request.Settings(), events[..i]);
      phase := Perform(request, events[i], phase, Run(request.Settings(), events[..i]));
    }
    assert events[..|events|] == events;
  }
}
