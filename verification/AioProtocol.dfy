/**
 * The asynchronous writer as a step system: any number of client threads and one drain thread
 * share a queue, a lock, a counting semaphore, a finish state and a reference count.
 *
 * Each step is one thing a thread does between two points at which another thread can run.  What
 * happens inside one critical section is visible to nobody else, so each critical section body is a
 * few steps of its holder.  The queue is the abstract content of the ring buffer of module `AioRing`.
 */
module AioProtocol {
  import opened Bytes
  import AioRing

  datatype Finish = Running | Close | Exit

  datatype Holder = Nobody | ByDrain | ByClient(who: nat)

  datatype DrainPc =
    | NeedLock                       // before a lock acquisition
    | Locked                         // holding the lock at the head of the loop
    | Parked                         // lock released, inside the semaphore wait
    | Writing(local: seq<Byte>)      // lock released, the local buffer not yet handed to the file
    | DrainReleased(last: bool)      // reference dropped and lock released, the struct not yet deleted
    | Exited

  datatype ClientPc =
    | Idle
    | InSection(section: seq<Byte>)  // between lock and unlock, with the bytes written so far
    | InClose                        // inside the critical section of close
    | InWait                         // inside the critical section of wait
    | OwesSignal(thenJoin: bool)     // lock released, semaphore not yet signalled
    | Joining                        // inside the thread join of wait
    | InFree                         // inside the critical section of free
    | FreeReleased(last: bool)       // reference dropped and lock released, the struct not yet deleted

  datatype State = State(
    lock: Holder,
    queue: seq<Byte>,
    sem: nat,
    finish: Finish,
    refcount: int,
    freed: bool,
    closes: nat,                     // how often the file has been closed
    drain: DrainPc,
    clients: seq<ClientPc>,
    waitCalled: bool,
    waitReturned: bool,
    freeCalled: bool,
    freer: nat,                      // which client called free
    file: seq<Byte>,                 // everything handed to the file so far
    enqueued: seq<Byte>,             // history: all bytes queued, in lock order
    sections: seq<seq<Byte>>,        // history: the completed lock sections, in lock order
    drainedSections: nat,            // history: how many sections the drain thread had seen when it left
    required: int                    // history: |enqueued| when finishing was first requested, or -1
  )

  datatype DrainStep = Lock | Loop | Wake | Write | Delete

  datatype ClientStep =
    | BeginSection | Append(data: seq<Byte>) | EndSection
    | Signal
    | BeginClose | SetClose
    | BeginWait | SetWait | Join
    | BeginFree | DropReference | DeleteStruct

  datatype Step = Drain(d: DrainStep) | Client(i: nat, c: ClientStep)

  function Init(n: nat): State {
    State(Nobody, [], 0, Running, 2, false, 0, NeedLock, seq(n, _ => Idle),
          false, false, false, 0, [], [], [], 0, -1)
  }

  predicate DrainGone(s: State) {
    s.drain.DrainReleased? || s.drain.Exited?
  }

  // ----- What each thread may do next -----

  /** `i` is an idle client and the handle has not been given up yet. */
  predicate CanStart(s: State, i: nat)
    requires i < |s.clients|
  {
    s.clients[i].Idle? && !s.freeCalled
  }

  predicate DrainEnabled(s: State, d: DrainStep) {
    match d
    case Lock => s.drain.NeedLock? && s.lock.Nobody?
    case Loop => s.drain.Locked?
    case Wake => s.drain.Parked? && s.sem > 0
    case Write => s.drain.Writing?
    case Delete => s.drain.DrainReleased?
  }

  /**
   * Guards of the clients.  A thread can only acquire a free lock.  What the interface asks of its
   * callers is here too: wait is called at most once, and free is called at most once, when no other
   * call on the handle is still going on and none follows.
   */
  predicate ClientEnabled(s: State, i: nat, c: ClientStep) {
    && i < |s.clients|
    && match c
       case BeginSection => CanStart(s, i) && s.lock.Nobody?
       case Append(_) => s.clients[i].InSection?
       case EndSection => s.clients[i].InSection?
       case Signal => s.clients[i].OwesSignal?
       case BeginClose => CanStart(s, i) && s.lock.Nobody?
       case SetClose => s.clients[i].InClose?
       case BeginWait => CanStart(s, i) && s.lock.Nobody? && !s.waitCalled
       case SetWait => s.clients[i].InWait?
       case Join => s.clients[i].Joining? && s.drain.Exited?
       case BeginFree => CanStart(s, i) && s.lock.Nobody? && AllIdle(s)
       case DropReference => s.clients[i].InFree?
       case DeleteStruct => s.clients[i].FreeReleased?
  }

  predicate AllIdle(s: State) {
    forall j | 0 <= j < |s.clients| :: s.clients[j].Idle?
  }

  predicate Enabled(s: State, step: Step) {
    match step
    case Drain(d) => DrainEnabled(s, d)
    case Client(i, c) => ClientEnabled(s, i, c)
  }

  /** One pass of the drain loop up to the point where the lock is released. */
  function DrainPass(s: State): State
    requires s.drain.Locked?
  {
    if s.queue == [] then
      if s.finish.Running? then
        s.(lock := Nobody, drain := Parked)
      else
        s.(lock := Nobody,
           closes := if s.finish.Close? then s.closes + 1 else s.closes,
           refcount := s.refcount - 1,
           drain := DrainReleased(s.refcount - 1 == 0),
           drainedSections := |s.sections|)
    else
      var n := Min(|s.queue|, AioRing.ASYNC_LOCAL_BUFSIZE);
      s.(lock := Nobody, queue := s.queue[n..], drain := Writing(s.queue[..n]))
  }

  function DrainApply(s: State, d: DrainStep): State
    requires DrainEnabled(s, d)
  {
    match d
    case Lock => s.(lock := ByDrain, drain := Locked)
    case Loop => DrainPass(s)
    case Wake => s.(sem := s.sem - 1, drain := NeedLock)
    case Write => s.(file := s.file + s.drain.local, drain := NeedLock)
    case Delete => s.(freed := s.freed || s.drain.last, drain := Exited)
  }

  /** The next program point of client `i`. */
  function NextPc(s: State, i: nat, c: ClientStep): ClientPc
    requires ClientEnabled(s, i, c)
  {
    match c
    case BeginSection => InSection([])
    case Append(data) => InSection(s.clients[i].section + data)
    case EndSection => OwesSignal(false)
    case Signal => if s.clients[i].thenJoin then Joining else Idle
    case BeginClose => InClose
    case SetClose => OwesSignal(false)
    case BeginWait => InWait
    case SetWait => OwesSignal(true)
    case Join => Idle
    case BeginFree => InFree
    case DropReference => FreeReleased(s.refcount - 1 == 0)
    case DeleteStruct => Idle
  }

  function NextLock(s: State, i: nat, c: ClientStep): Holder {
    match c
    case BeginSection => ByClient(i)
    case BeginClose => ByClient(i)
    case BeginWait => ByClient(i)
    case BeginFree => ByClient(i)
    case EndSection => Nobody
    case SetClose => Nobody
    case SetWait => Nobody
    case DropReference => Nobody
    case _ => s.lock
  }

  function Request(s: State): int {
    if s.required < 0 then |s.enqueued| else s.required
  }

  /** The state after a step of client `i`, field by field. */
  function ClientApply(s: State, i: nat, c: ClientStep): State
    requires ClientEnabled(s, i, c)
  {
    s.(clients := s.clients[i := NextPc(s, i, c)],
       lock := NextLock(s, i, c),
       queue := if c.Append? then s.queue + c.data else s.queue,
       enqueued := if c.Append? then s.enqueued + c.data else s.enqueued,
       sections := if c.EndSection? then s.sections + [s.clients[i].section] else s.sections,
       sem := if c.Signal? then s.sem + 1 else s.sem,
       finish := if c.SetClose? then Close else if c.SetWait? && s.finish.Running? then Exit else s.finish,
       required := if c.SetClose? || c.SetWait? then Request(s) else s.required,
       waitCalled := s.waitCalled || c.BeginWait?,
       waitReturned := s.waitReturned || c.Join?,
       freeCalled := s.freeCalled || c.BeginFree?,
       freer := if c.BeginFree? then i else s.freer,
       refcount := if c.DropReference? then s.refcount - 1 else s.refcount,
       freed := s.freed || (c.DeleteStruct? && s.clients[i].last))
  }

  function Apply(s: State, step: Step): State
    requires Enabled(s, step)
  {
    match step
    case Drain(d) => DrainApply(s, d)
    case Client(i, c) => ClientApply(s, i, c)
  }

  /** The steps that use the shared struct: its lock, semaphore, ring buffer, counters, or its storage. */
  predicate Touches(s: State, step: Step) {
    match step
    case Drain(Delete) => s.drain.DrainReleased? && s.drain.last
    case Client(i, DeleteStruct) => i < |s.clients| && s.clients[i].FreeReleased? && s.clients[i].last
    case Client(_, Join) => false
    case _ => true
  }

  // ----- Runs -----

  predicate Legal(s: State, steps: seq<Step>)
    decreases |steps|
  {
    steps == [] || (Enabled(s, steps[0]) && Legal(Apply(s, steps[0]), steps[1..]))
  }

  function Exec(s: State, steps: seq<Step>): State
    requires Legal(s, steps)
    decreases |steps|
  {
    if steps == [] then s else Exec(Apply(s, steps[0]), steps[1..])
  }

  // ----- The invariant -----

  predicate HoldsLock(pc: ClientPc) {
    pc.InSection? || pc.InClose? || pc.InWait? || pc.InFree?
  }

  ghost predicate LockOk(s: State) {
    && (s.lock.ByDrain? <==> s.drain.Locked?)
    && (s.lock.ByClient? ==> s.lock.who < |s.clients|)
    && forall i | 0 <= i < |s.clients| :: HoldsLock(s.clients[i]) <==> s.lock == ByClient(i)
  }

  function InFlight(s: State): seq<Byte> {
    if s.drain.Writing? then s.drain.local else []
  }

  /** What the current lock holder has written in its still open section. */
  function OpenSection(s: State): seq<Byte> {
    if s.lock.ByClient? && s.lock.who < |s.clients| && s.clients[s.lock.who].InSection? then
      s.clients[s.lock.who].section
    else []
  }

  predicate Ordered(s: State) {
    s.file + InFlight(s) + s.queue == s.enqueued
  }

  predicate Sectioned(s: State) {
    s.enqueued == Flatten(s.sections) + OpenSection(s)
  }

  ghost predicate BytesOk(s: State) {
    Ordered(s) && Sectioned(s)
  }

  predicate Owes(pc: ClientPc) {
    pc.OwesSignal?
  }

  ghost predicate SomeoneOwes(s: State) {
    exists i :: 0 <= i < |s.clients| && Owes(s.clients[i])
  }

  ghost predicate WakeupOk(s: State) {
    s.drain.Parked? && (s.queue != [] || !s.finish.Running?) ==>
      s.sem > 0 || SomeoneOwes(s) || (s.lock.ByClient? && s.lock.who < |s.clients| && s.clients[s.lock.who].InSection?)
  }

  ghost predicate ExitOk(s: State) {
    && (s.finish.Running? <==> s.required < 0)
    && s.required <= |s.enqueued|
    && (s.closes > 0 ==> s.finish.Close?)
    && (DrainGone(s) ==>
          && !s.finish.Running?
          && s.required <= |s.file|
          && s.closes <= 1
          && s.drainedSections <= |s.sections|
          && s.file == Flatten(s.sections[..s.drainedSections]))
    && (!DrainGone(s) ==> s.closes == 0)
    && (s.waitReturned ==> s.drain.Exited?)
  }

  /** The client that called free has dropped its reference and not yet deleted, or passed by, the struct. */
  predicate ClientDeleting(s: State, last: bool) {
    s.freeCalled && s.freer < |s.clients| && s.clients[s.freer] == FreeReleased(last)
  }

  predicate InFreeSection(s: State) {
    s.lock.ByClient? && s.lock.who < |s.clients| && s.clients[s.lock.who].InFree?
  }

  function DrainRef(s: State): int { if DrainGone(s) then 0 else 1 }

  function HandleRef(s: State): int { if s.freeCalled && !InFreeSection(s) then 0 else 1 }

  predicate Quiet(pc: ClientPc) {
    pc.Idle? || pc.InFree? || pc.FreeReleased?
  }

  /** Only the client that called free is still inside a call once free has been called. */
  predicate OneFreer(s: State, i: nat)
    requires i < |s.clients|
  {
    if !s.freeCalled then !s.clients[i].InFree? && !s.clients[i].FreeReleased?
    else if i == s.freer then Quiet(s.clients[i])
    else s.clients[i].Idle?
  }

  /** Reference counting: the count is the number of live references, and the last to drop it deletes. */
  ghost predicate LifetimeOk(s: State) {
    && s.refcount == DrainRef(s) + HandleRef(s)
    && (s.freeCalled ==> s.freer < |s.clients|)
    && (forall i | 0 <= i < |s.clients| :: OneFreer(s, i))
    && (ClientDeleting(s, true) || s.drain == DrainReleased(true) || s.freed ==> s.refcount == 0)
    && (s.refcount == 0 ==> s.freed || ClientDeleting(s, true) || s.drain == DrainReleased(true))
    && !(s.freed && ClientDeleting(s, true))
    && !(s.freed && s.drain == DrainReleased(true))
    && !(ClientDeleting(s, true) && s.drain == DrainReleased(true))
  }

  ghost predicate Inv(s: State) {
    LockOk(s) && BytesOk(s) && WakeupOk(s) && ExitOk(s) && LifetimeOk(s)
  }

  lemma InitInv(n: nat)
    ensures Inv(Init(n))
  {
  }

  // ----- The steps of the drain thread keep the invariant -----

  lemma DrainLockOk(s: State, d: DrainStep)
    requires LockOk(s) && DrainEnabled(s, d)
    ensures LockOk(DrainApply(s, d))
  {
  }

  lemma Regroup(a: seq<Byte>, b: seq<Byte>, c: seq<Byte>)
    ensures a + [] + (b + c) == a + b + c
    ensures a + b + [] == a + b
    ensures a + (b + c) == a + b + c
  {
  }

  lemma DrainOrdered(s: State, d: DrainStep)
    requires Ordered(s) && DrainEnabled(s, d)
    ensures Ordered(DrainApply(s, d))
  {
    var t := DrainApply(s, d);
    match d
    case Loop =>
      if s.queue != [] {
        var n := Min(|s.queue|, AioRing.ASYNC_LOCAL_BUFSIZE);
        assert s.queue[..n] + s.queue[n..] == s.queue;
        Regroup(s.file, s.queue[..n], s.queue[n..]);
      }
    case Write => Regroup(s.file + s.drain.local, [], s.queue);
    case _ =>
  }

  /** The drain thread leaves alone what the clients have written. */
  lemma DrainKeeps(s: State, d: DrainStep)
    requires LockOk(s) && DrainEnabled(s, d)
    ensures var t := DrainApply(s, d);
      && t.clients == s.clients && t.sections == s.sections && t.enqueued == s.enqueued
      && (t.lock.ByClient? <==> s.lock.ByClient?) && (t.lock.ByClient? ==> t.lock == s.lock)
  {
  }

  lemma DrainSectioned(s: State, d: DrainStep)
    requires LockOk(s) && Sectioned(s) && DrainEnabled(s, d)
    ensures Sectioned(DrainApply(s, d))
  {
    DrainKeeps(s, d);
    hide DrainApply, DrainEnabled, LockOk, Flatten;
  }

  lemma DrainWakeupOk(s: State, d: DrainStep)
    requires LockOk(s) && WakeupOk(s) && DrainEnabled(s, d)
    ensures WakeupOk(DrainApply(s, d))
  {
  }

  lemma DrainExitOk(s: State, d: DrainStep)
    requires LockOk(s) && BytesOk(s) && ExitOk(s) && DrainEnabled(s, d)
    ensures ExitOk(DrainApply(s, d))
  {
    if d.Loop? {
      assert s.sections[..|s.sections|] == s.sections;
      assert OpenSection(s) == [] && s.file + [] + [] == s.file;
    }
  }

  lemma DrainLifetimeOk(s: State, d: DrainStep)
    requires LockOk(s) && LifetimeOk(s) && DrainEnabled(s, d)
    ensures LifetimeOk(DrainApply(s, d))
  {
    var t := DrainApply(s, d);
    forall j | 0 <= j < |t.clients| ensures OneFreer(t, j) {
      assert OneFreer(s, j);
    }
  }

  // ----- The steps of the clients keep the invariant -----

  lemma ClientLockOk(s: State, i: nat, c: ClientStep)
    requires LockOk(s) && ClientEnabled(s, i, c)
    ensures LockOk(ClientApply(s, i, c))
  {
  }

  lemma ClientOrdered(s: State, i: nat, c: ClientStep)
    requires Ordered(s) && ClientEnabled(s, i, c)
    ensures Ordered(ClientApply(s, i, c))
  {
    if c.Append? {
      Regroup(s.file + InFlight(s), s.queue, c.data);
    }
  }

  lemma ClientSectioned(s: State, i: nat, c: ClientStep)
    requires LockOk(s) && Sectioned(s) && ClientEnabled(s, i, c)
    ensures Sectioned(ClientApply(s, i, c))
  {
    var t := ClientApply(s, i, c);
    match c
    case Append(data) =>
      Regroup(Flatten(s.sections), OpenSection(s), data);
    case EndSection =>
      FlattenSnoc(s.sections, s.clients[i].section);
      Regroup(Flatten(s.sections), s.clients[i].section, []);
    case _ =>
      assert OpenSection(t) == OpenSection(s);
  }

  lemma ClientWakeupOk(s: State, i: nat, c: ClientStep)
    requires LockOk(s) && WakeupOk(s) && ClientEnabled(s, i, c)
    ensures WakeupOk(ClientApply(s, i, c))
  {
    var t := ClientApply(s, i, c);
    if c.EndSection? || c.SetClose? || c.SetWait? {
      assert Owes(t.clients[i]);
    } else if SomeoneOwes(s) && !c.Signal? {
      var j :| 0 <= j < |s.clients| && Owes(s.clients[j]);
      assert Owes(t.clients[j]);
    }
  }

  lemma ClientExitOk(s: State, i: nat, c: ClientStep)
    requires LockOk(s) && BytesOk(s) && ExitOk(s) && ClientEnabled(s, i, c)
    ensures ExitOk(ClientApply(s, i, c))
  {
    if c.EndSection? && DrainGone(s) {
      assert (s.sections + [s.clients[i].section])[..s.drainedSections] == s.sections[..s.drainedSections];
    }
  }

  lemma ClientLifetimeOk(s: State, i: nat, c: ClientStep)
    requires LockOk(s) && LifetimeOk(s) && ClientEnabled(s, i, c)
    ensures LifetimeOk(ClientApply(s, i, c))
  {
    var t := ClientApply(s, i, c);
    assert OneFreer(s, i);
    forall j | 0 <= j < |t.clients| ensures OneFreer(t, j) {
      assert OneFreer(s, j);
    }
  }

  lemma StepKeepsInv(s: State, step: Step)
    requires Inv(s) && Enabled(s, step)
    ensures Inv(Apply(s, step))
  {
    hide LockOk, Ordered, Sectioned, WakeupOk, ExitOk, LifetimeOk, DrainApply, ClientApply, DrainEnabled, ClientEnabled;
    match step
    case Drain(d) =>
      DrainLockOk(s, d); DrainOrdered(s, d); DrainSectioned(s, d);
      DrainWakeupOk(s, d); DrainExitOk(s, d); DrainLifetimeOk(s, d);
    case Client(i, c) =>
      ClientLockOk(s, i, c); ClientOrdered(s, i, c); ClientSectioned(s, i, c);
      ClientWakeupOk(s, i, c); ClientExitOk(s, i, c); ClientLifetimeOk(s, i, c);
  }

  lemma {:induction false} RunKeepsInv(s: State, steps: seq<Step>)
    requires Inv(s) && Legal(s, steps)
    ensures Inv(Exec(s, steps))
    decreases |steps|
  {
    if steps != [] {
      StepKeepsInv(s, steps[0]);
      RunKeepsInv(Apply(s, steps[0]), steps[1..]);
    }
  }

  lemma {:induction false} ExecConcat(s: State, a: seq<Step>, b: seq<Step>)
    requires Legal(s, a) && Legal(Exec(s, a), b)
    ensures Legal(s, a + b) && Exec(s, a + b) == Exec(Exec(s, a), b)
    decreases |a|
  {
    hide Apply, Enabled;
    if a == [] {
      assert a + b == b;
    } else {
      ExecConcat(Apply(s, a[0]), a[1..], b);
      assert (a + b)[1..] == a[1..] + b;
    }
  }

  lemma ExecSnoc(s: State, steps: seq<Step>, step: Step)
    requires Legal(s, steps) && Enabled(Exec(s, steps), step)
    ensures Legal(s, steps + [step]) && Exec(s, steps + [step]) == Apply(Exec(s, steps), step)
  {
    var t := Exec(s, steps);
    var t1 := Apply(t, step);
    assert [step][1..] == [];
    assert Legal(t1, []) && Exec(t1, []) == t1;
    assert Legal(t, [step]) && Exec(t, [step]) == t1;
    ExecConcat(s, steps, [step]);
  }

  // ----- Main results, for every number of clients and every interleaving -----

  /** `s` can be reached from a fresh handle used by some number of clients. */
  ghost predicate Reachable(s: State) {
    exists n: nat, steps: seq<Step> :: Legal(Init(n), steps) && s == Exec(Init(n), steps)
  }

  lemma ReachableInv(s: State)
    requires Reachable(s)
    ensures Inv(s)
  {
    var n: nat, steps: seq<Step> :| Legal(Init(n), steps) && s == Exec(Init(n), steps);
    InitInv(n);
    RunKeepsInv(Init(n), steps);
  }

  /**
   * Order and contiguity.  What has been handed to the file, then what is in flight, then the queue, is
   * the concatenation of the lock sections in lock order, the open one last.  So the file always holds a
   * prefix of that concatenation, and once the drain thread has left, it holds whole sections only.
   */
  lemma FileIsInLockOrder(s: State)
    requires Reachable(s)
    ensures s.file + InFlight(s) + s.queue == Flatten(s.sections) + OpenSection(s)
    ensures s.file <= Flatten(s.sections) + OpenSection(s)
    ensures DrainGone(s) ==> exists k :: 0 <= k <= |s.sections| && s.file == Flatten(s.sections[..k])
  {
    ReachableInv(s);
  }

  /**
   * No lost wake-up.  While the drain thread is parked although bytes are pending or finishing was
   * requested, either the semaphore is positive, or a client that has released the lock still owes a
   * signal, or a client is still inside its lock section (and will owe one).
   */
  lemma NoLostWakeup(s: State)
    requires Reachable(s) && s.drain.Parked?
    requires s.queue != [] || !s.finish.Running?
    ensures s.sem > 0 || SomeoneOwes(s)
         || exists i :: 0 <= i < |s.clients| && s.clients[i].InSection? && s.lock == ByClient(i)
  {
    ReachableInv(s);
  }

  /** Once freed, no thread has a step left that uses the struct. */
  lemma NoUseAfterFree(s: State, step: Step)
    requires Reachable(s) && Enabled(s, step) && Touches(s, step)
    ensures !s.freed
  {
    ReachableInv(s);
    if step.Client? {
      assert OneFreer(s, step.i);
    }
  }

  predicate IsDelete(s: State, step: Step)
    requires Enabled(s, step)
  {
    (step == Drain(Delete) && s.drain.last)
    || (step.Client? && step.c.DeleteStruct? && s.clients[step.i].last)
  }

  /** The number of steps of a run that delete the struct. */
  function Deletes(s: State, steps: seq<Step>): nat
    requires Legal(s, steps)
    decreases |steps|
  {
    if steps == [] then 0
    else (if IsDelete(s, steps[0]) then 1 else 0) + Deletes(Apply(s, steps[0]), steps[1..])
  }

  lemma DeleteSetsFreed(s: State, step: Step)
    requires Inv(s) && Enabled(s, step)
    ensures Apply(s, step).freed <==> s.freed || IsDelete(s, step)
    ensures !(s.freed && IsDelete(s, step))
  {
    hide BytesOk, WakeupOk, ExitOk, NextPc, NextLock, Request;
    if step.Client? {
      assert OneFreer(s, step.i);
    }
  }

  lemma {:induction false} DeletesMatchFreed(s: State, steps: seq<Step>)
    requires Inv(s) && Legal(s, steps)
    ensures Deletes(s, steps) + (if s.freed then 1 else 0) == (if Exec(s, steps).freed then 1 else 0)
    decreases |steps|
  {
    if steps != [] {
      StepKeepsInv(s, steps[0]);
      DeleteSetsFreed(s, steps[0]);
      DeletesMatchFreed(Apply(s, steps[0]), steps[1..]);
    }
  }

  /** The struct is deleted at most once in any run, and exactly once when both owners are through with it. */
  lemma FreedExactlyOnce(n: nat, steps: seq<Step>)
    requires Legal(Init(n), steps)
    ensures var s := Exec(Init(n), steps);
      && Deletes(Init(n), steps) <= 1
      && (s.drain.Exited? && s.freeCalled && AllIdle(s) ==> s.freed && Deletes(Init(n), steps) == 1)
  {
    InitInv(n);
    RunKeepsInv(Init(n), steps);
    DeletesMatchFreed(Init(n), steps);
  }

  lemma GoneStays(s: State, step: Step)
    requires Inv(s) && DrainGone(s) && Enabled(s, step)
    ensures var t := Apply(s, step); DrainGone(t) && t.file == s.file && t.closes == s.closes
  {
    hide ClientApply, DrainApply, WakeupOk, BytesOk, LifetimeOk;
    match step
    case Drain(d) => DrainGoneStays(s, d);
    case Client(i, c) => ClientsLeaveDrain(s, i, c);
  }

  lemma DrainGoneStays(s: State, d: DrainStep)
    requires DrainGone(s) && DrainEnabled(s, d)
    ensures var t := DrainApply(s, d); DrainGone(t) && t.file == s.file && t.closes == s.closes
  {
  }

  lemma ClientsLeaveDrain(s: State, i: nat, c: ClientStep)
    requires ClientEnabled(s, i, c)
    ensures var t := ClientApply(s, i, c); t.drain == s.drain && t.file == s.file && t.closes == s.closes
  {
    hide NextPc, NextLock, Request, ClientEnabled;
  }

  /** The file is closed at most once, only after everything was written, and never written afterwards. */
  lemma {:induction false} NoWriteAfterClose(s: State, steps: seq<Step>)
    requires Inv(s) && Legal(s, steps) && DrainGone(s)
    ensures var t := Exec(s, steps);
      DrainGone(t) && t.file == s.file && t.closes == s.closes && t.closes <= 1
    decreases |steps|
  {
    if steps != [] {
      StepKeepsInv(s, steps[0]);
      GoneStays(s, steps[0]);
      NoWriteAfterClose(Apply(s, steps[0]), steps[1..]);
    }
  }

  /**
   * The close happens in the very step in which the drain thread leaves.  At that moment everything
   * enqueued has been written, and the file is closed if and only if close was requested.
   */
  lemma DrainLeavesOnlyWhenEmpty(s: State, step: Step)
    requires Reachable(s) && Enabled(s, step) && !DrainGone(s)
    ensures var t := Apply(s, step);
      && (DrainGone(t) ==> t.file == t.enqueued && t.queue == [] && !s.finish.Running?
                           && (t.closes == 1 <==> s.finish.Close?))
      && (t.closes > 0 ==> DrainGone(t))
  {
    ReachableInv(s);
    match step
    case Drain(d) => assert s.file + [] + [] == s.file;
    case Client(i, c) =>
      ClientsLeaveDrain(s, i, c);
      hide ClientApply;
  }

  lemma StepReachable(s: State, step: Step)
    requires Reachable(s) && Enabled(s, step)
    ensures Reachable(Apply(s, step))
  {
    var n: nat, steps: seq<Step> :| Legal(Init(n), steps) && s == Exec(Init(n), steps);
    ExecSnoc(Init(n), steps, step);
  }

  lemma CloseRequestStays(s: State, step: Step)
    requires Enabled(s, step) && s.finish.Close?
    ensures Apply(s, step).finish.Close?
  {
    hide NextPc, NextLock, Request, DrainEnabled, ClientEnabled;
    match step
    case Drain(d) => hide ClientApply;
    case Client(i, c) => hide DrainApply;
  }

  /** A close that is requested while the drain thread is there is carried out, also when wait follows it. */
  lemma {:induction false} CloseRequestCloses(s: State, steps: seq<Step>)
    requires Reachable(s) && s.finish.Close? && !DrainGone(s)
    requires Legal(s, steps) && DrainGone(Exec(s, steps))
    ensures Exec(s, steps).closes == 1
    decreases |steps|
  {
    ReachableInv(s);
    DrainLeavesOnlyWhenEmpty(s, steps[0]);
    StepReachable(s, steps[0]);
    CloseRequestStays(s, steps[0]);
    var s1 := Apply(s, steps[0]);
    ReachableInv(s1);
    hide Apply, Enabled, Inv, DrainGone;
    if DrainGone(s1) {
      NoWriteAfterClose(s1, steps[1..]);
    } else {
      CloseRequestCloses(s1, steps[1..]);
    }
  }

  /** When wait returns, everything enqueued before finishing was first requested is in the file. */
  lemma WaitDelivers(s: State)
    requires Reachable(s) && s.waitReturned
    ensures 0 <= s.required <= |s.file| && s.file <= s.enqueued
    ensures s.enqueued[..s.required] <= s.file
    ensures |s.enqueued| == s.required ==> s.file == s.enqueued
  {
    ReachableInv(s);
  }

  // ----- Progress -----

  predicate IsBegin(step: Step) {
    step.Client? && (step.c.BeginSection? || step.c.BeginClose? || step.c.BeginWait? || step.c.BeginFree?)
  }

  lemma CallContinues(s: State) returns (step: Step)
    requires Inv(s) && !s.finish.Running? && !s.drain.Exited?
    ensures Enabled(s, step) && !IsBegin(step) && !(step.Client? && step.c.Append?)
  {
    if s.lock.ByClient? {
      var i := s.lock.who;
      var c := match s.clients[i] case InSection(_) => EndSection case InClose => SetClose
                                  case InWait => SetWait case _ => DropReference;
      step := Client(i, c);
    } else if SomeoneOwes(s) {
      var i :| 0 <= i < |s.clients| && Owes(s.clients[i]);
      step := Client(i, Signal);
    } else {
      step := Drain(NextDrain(s));
    }
  }

  /** After finishing was requested, the drain thread is never stuck: some call under way can continue. */
  lemma NoDeadlock(s: State)
    requires Reachable(s) && !s.finish.Running? && !s.drain.Exited?
    ensures exists step :: Enabled(s, step) && !IsBegin(step)
  {
    ReachableInv(s);
    var step := CallContinues(s);
  }

  function NextDrain(s: State): DrainStep {
    match s.drain
    case NeedLock => Lock
    case Locked => Loop
    case Parked => Wake
    case Writing(_) => Write
    case _ => Delete
  }

  /** How many steps the drain thread still needs when it runs alone. */
  function Rank(s: State): nat {
    match s.drain
    case Parked => 4 + 3 * |s.queue|
    case Writing(_) => 4 + 3 * |s.queue|
    case NeedLock => 3 + 3 * |s.queue|
    case Locked => 2 + 3 * |s.queue|
    case DrainReleased(_) => 1
    case Exited => 0
  }

  /** No client is inside a call that still has to release the lock or signal. */
  ghost predicate Settled(s: State) {
    !s.lock.ByClient? && !SomeoneOwes(s)
  }

  lemma DrainMoves(s: State)
    requires Inv(s) && Settled(s) && !s.drain.Exited?
    requires !s.finish.Running? || s.queue != [] || s.drain.Writing?
    ensures DrainEnabled(s, NextDrain(s))
    ensures forall d :: DrainEnabled(s, d) ==> d == NextDrain(s)
    ensures var t := DrainApply(s, NextDrain(s));
      && Rank(t) < Rank(s) && Settled(t) && t.finish == s.finish && t.enqueued == s.enqueued
      && t.clients == s.clients
      && (DrainGone(t) && !DrainGone(s) ==> t.file == t.enqueued)
      && (DrainGone(s) ==> DrainGone(t) && t.file == s.file)
  {
    SameDebts(s, DrainApply(s, NextDrain(s)));
  }

  lemma SameDebts(s: State, t: State)
    requires s.clients == t.clients
    ensures SomeoneOwes(s) <==> SomeoneOwes(t)
  {
  }

  /**
   * Liveness.  From every reachable state in which finishing was requested and no client is inside a
   * call, the drain thread alone reaches its end and everything enqueued has then been written.
   */
  lemma {:induction false} DrainFinishes(s: State) returns (run: seq<Step>)
    requires Inv(s) && Settled(s) && !s.finish.Running?
    ensures Legal(s, run) && forall step | step in run :: step.Drain?
    ensures var t := Exec(s, run);
      && t.drain.Exited? && t.lock.Nobody? && t.clients == s.clients && t.enqueued == s.enqueued
      && t.finish == s.finish && t.freeCalled == s.freeCalled && t.waitCalled == s.waitCalled
      && t.file == if DrainGone(s) then s.file else s.enqueued
    decreases Rank(s)
  {
    if s.drain.Exited? {
      run := [];
    } else {
      DrainMoves(s);
      var step := Drain(NextDrain(s));
      StepKeepsInv(s, step);
      var rest := DrainFinishes(Apply(s, step));
      run := [step] + rest;
      assert run[1..] == rest;
    }
  }

  /**
   * Liveness before finishing.  From every reachable state in which no client is inside a call, the drain
   * thread alone writes everything that was enqueued: it needs no further signal to notice it.
   */
  lemma {:induction false} DrainEmpties(s: State) returns (run: seq<Step>)
    requires Inv(s) && Settled(s) && s.finish.Running?
    ensures Legal(s, run) && forall step | step in run :: step.Drain?
    ensures var t := Exec(s, run); t.file == t.enqueued == s.enqueued && t.clients == s.clients && t.finish.Running?
    decreases Rank(s)
  {
    if s.queue == [] && !s.drain.Writing? {
      run := [];
      assert s.file + [] + [] == s.file;
    } else {
      DrainMoves(s);
      var step := Drain(NextDrain(s));
      StepKeepsInv(s, step);
      var rest := DrainEmpties(Apply(s, step));
      run := [step] + rest;
      assert run[1..] == rest;
    }
  }

  // ----- Bytes enqueued after finishing was requested -----

  lemma EnqueuedGrows(s: State, step: Step)
    requires Enabled(s, step)
    ensures s.enqueued <= Apply(s, step).enqueued
  {
    match step
    case Drain(d) =>
      hide ClientApply, ClientEnabled;
    case Client(i, c) =>
      ClientEnqueues(s, i, c);
      hide ClientApply, ClientEnabled, DrainApply;
  }

  lemma ClientEnqueues(s: State, i: nat, c: ClientStep)
    requires ClientEnabled(s, i, c)
    ensures ClientApply(s, i, c).enqueued == if c.Append? then s.enqueued + c.data else s.enqueued
  {
    hide NextPc, NextLock, Request, ClientEnabled;
  }

  lemma {:induction false} DeliveredWhenGone(s: State, steps: seq<Step>)
    requires Reachable(s) && Legal(s, steps) && DrainGone(Exec(s, steps))
    ensures s.enqueued <= Exec(s, steps).file <==> !DrainGone(s) || s.file == s.enqueued
    decreases |steps|
  {
    ReachableInv(s);
    if DrainGone(s) {
      NoWriteAfterClose(s, steps);
      assert s.file <= s.enqueued;
    } else {
      var s1 := Apply(s, steps[0]);
      DrainLeavesOnlyWhenEmpty(s, steps[0]);
      StepReachable(s, steps[0]);
      EnqueuedGrows(s, steps[0]);
      hide Apply, Enabled, Inv, DrainGone;
      DeliveredWhenGone(s1, steps[1..]);
    }
  }

  /**
   * What wait promises, seen from inside.  Whatever happens after `s`, once wait returns, the bytes enqueued
   * up to `s` are in the file if and only if the drain thread had not left at `s` or had nothing left to
   * write.  `WriteIsSafeExactly` gives the guard in terms a caller can check.
   */
  lemma DeliveredExactly(s: State, steps: seq<Step>)
    requires Reachable(s) && Legal(s, steps) && Exec(s, steps).waitReturned
    ensures s.enqueued <= Exec(s, steps).file <==> !DrainGone(s) || s.file == s.enqueued
  {
    ReachableInv(s);
    RunKeepsInv(s, steps);
    DeliveredWhenGone(s, steps);
  }

  /** The steps of one whole write call of client `i`. */
  function WriteCall(i: nat, data: seq<Byte>): seq<Step> {
    [Client(i, BeginSection), Client(i, Append(data)), Client(i, EndSection), Client(i, Signal)]
  }

  /** The steps of one whole wait call of client `i`. */
  function WaitCall(i: nat): seq<Step> {
    [Client(i, BeginWait), Client(i, SetWait), Client(i, Signal), Client(i, Join)]
  }

  lemma ExecFour(s: State, a: Step, b: Step, c: Step, d: Step)
    requires Enabled(s, a)
    requires var s1 := Apply(s, a); Enabled(s1, b)
    requires var s2 := Apply(Apply(s, a), b); Enabled(s2, c)
    requires var s3 := Apply(Apply(Apply(s, a), b), c); Enabled(s3, d)
    ensures Legal(s, [a, b, c, d])
    ensures Exec(s, [a, b, c, d]) == Apply(Apply(Apply(Apply(s, a), b), c), d)
  {
    assert Exec(s, []) == s;
    ExecSnoc(s, [], a);
    ExecSnoc(s, [a], b);
    ExecSnoc(s, [a, b], c);
    ExecSnoc(s, [a, b, c], d);
    assert [] + [a] == [a] && [a] + [b] == [a, b] && [a, b] + [c] == [a, b, c] && [a, b, c] + [d] == [a, b, c, d];
  }

  lemma WriteAlone(s: State, i: nat, data: seq<Byte>)
    requires s.lock.Nobody? && i < |s.clients| && s.clients[i].Idle? && !s.freeCalled
    ensures Legal(s, WriteCall(i, data))
    ensures var t := Exec(s, WriteCall(i, data));
      && t.enqueued == s.enqueued + data && t.file == s.file && t.drain == s.drain && t.lock.Nobody?
      && |t.clients| == |s.clients| && t.clients[i].Idle?
      && t.freeCalled == s.freeCalled && t.waitCalled == s.waitCalled
  {
    ExecFour(s, Client(i, BeginSection), Client(i, Append(data)), Client(i, EndSection), Client(i, Signal));
  }

  lemma WaitAlone(s: State, i: nat)
    requires s.drain.Exited? && s.lock.Nobody? && i < |s.clients| && s.clients[i].Idle?
    requires !s.freeCalled && !s.waitCalled
    ensures Legal(s, WaitCall(i))
    ensures var t := Exec(s, WaitCall(i)); t.waitReturned && t.enqueued == s.enqueued && t.file == s.file
  {
    ExecFour(s, Client(i, BeginWait), Client(i, SetWait), Client(i, Signal), Client(i, Join));
  }

  /**
   * The other half of `WaitDelivers`: the bytes of a write made after finishing was requested are not
   * guaranteed.  From every state in which close has been called and all clients are idle, a write of any
   * nonempty data followed by wait can return without the data ever reaching the file.
   */
  lemma LateWriteCanBeLost(s: State, i: nat, data: seq<Byte>) returns (alone: seq<Step>)
    requires Reachable(s) && AllIdle(s) && !s.finish.Running? && !s.waitCalled && !s.freeCalled
    requires i < |s.clients| && data != []
    ensures var run := alone + (WriteCall(i, data) + WaitCall(i));
      && Legal(s, run)
      && var t := Exec(s, run); t.waitReturned && t.enqueued == s.enqueued + data && |t.file| < |t.enqueued|
    ensures Legal(s, alone + WriteCall(i, data)) && (forall step | step in alone :: step.Drain?)
    ensures Exec(s, alone + WriteCall(i, data)).enqueued == s.enqueued + data
  {
    ReachableInv(s);
    alone := DrainFinishes(s);
    var t := Exec(s, alone);
    WriteAlone(t, i, data);
    WaitAlone(Exec(t, WriteCall(i, data)), i);
    ExecConcat(t, WriteCall(i, data), WaitCall(i));
    ExecConcat(s, alone, WriteCall(i, data) + WaitCall(i));
    ExecConcat(s, alone, WriteCall(i, data));
    assert |s.file| <= |s.enqueued|;
  }

  /** A step of the drain thread, or a step of any client's write call. */
  predicate WriteOrDrain(step: Step) {
    step.Client? ==> step.c.BeginSection? || step.c.Append? || step.c.EndSection? || step.c.Signal?
  }

  /** In `run` client `i` writes `data`, while the drain thread and other writes go on in any order. */
  predicate WriteRun(run: seq<Step>, i: nat, data: seq<Byte>) {
    Client(i, Append(data)) in run && forall step | step in run :: WriteOrDrain(step)
  }

  /** However the threads are scheduled around the write: once wait returns, what was queued by then is written. */
  ghost predicate WriteIsSafe(s: State, i: nat, data: seq<Byte>) {
    forall run: seq<Step>, late: seq<Step> ::
      WriteRun(run, i, data) && Legal(s, run) && Legal(Exec(s, run), late) && Exec(Exec(s, run), late).waitReturned
      ==> Exec(s, run).enqueued <= Exec(Exec(s, run), late).file
  }

  lemma WritesKeepFinish(s: State, step: Step)
    requires Enabled(s, step) && WriteOrDrain(step)
    ensures Apply(s, step).finish == s.finish
  {
    hide NextPc, NextLock, Request, DrainEnabled, ClientEnabled;
    match step
    case Drain(d) => hide ClientApply;
    case Client(i, c) => hide DrainApply;
  }

  lemma {:induction false} WriteRunKeepsFinish(s: State, run: seq<Step>)
    requires Reachable(s) && Legal(s, run) && forall step | step in run :: WriteOrDrain(step)
    ensures Reachable(Exec(s, run)) && Exec(s, run).finish == s.finish
    decreases |run|
  {
    hide Apply, Enabled;
    if run != [] {
      StepReachable(s, run[0]);
      WritesKeepFinish(s, run[0]);
      WriteRunKeepsFinish(Apply(s, run[0]), run[1..]);
    }
  }

  /** Before a finish request every write is safe. */
  lemma EarlyWriteIsSafe(s: State, i: nat, data: seq<Byte>)
    requires Reachable(s) && s.finish.Running?
    ensures WriteIsSafe(s, i, data)
  {
    forall run: seq<Step>, late: seq<Step> |
      WriteRun(run, i, data) && Legal(s, run) && Legal(Exec(s, run), late) && Exec(Exec(s, run), late).waitReturned
      ensures Exec(s, run).enqueued <= Exec(Exec(s, run), late).file
    {
      WriteRunKeepsFinish(s, run);
      ReachableInv(Exec(s, run));
      DeliveredExactly(Exec(s, run), late);
    }
  }

  lemma LateWriteIsUnsafe(s: State, i: nat, data: seq<Byte>)
    requires Reachable(s) && AllIdle(s) && !s.finish.Running? && !s.waitCalled && !s.freeCalled
    requires i < |s.clients| && data != []
    ensures !WriteIsSafe(s, i, data)
  {
    var alone := LateWriteCanBeLost(s, i, data);
    hide Apply, Enabled, Reachable;
    var run, late := alone + WriteCall(i, data), WaitCall(i);
    assert run + late == alone + (WriteCall(i, data) + late);
    LegalSplit(s, run, late);
    assert run[|alone| + 1] == Client(i, Append(data));
    assert WriteRun(run, i, data);
    assert !(Exec(s, run).enqueued <= Exec(Exec(s, run), late).file);
  }

  lemma {:induction false} LegalSplit(s: State, a: seq<Step>, b: seq<Step>)
    requires Legal(s, a) && Legal(s, a + b)
    ensures Legal(Exec(s, a), b) && Exec(Exec(s, a), b) == Exec(s, a + b)
    decreases |a|
  {
    hide Apply, Enabled;
    if a == [] {
      assert a + b == b;
    } else {
      assert (a + b)[1..] == a[1..] + b;
      LegalSplit(Apply(s, a[0]), a[1..], b);
    }
  }

  /**
   * The exact guard for callers.  Between calls, a write is certain to be in the file when wait returns if
   * and only if finishing has not been requested yet.
   */
  lemma WriteIsSafeExactly(s: State, i: nat, data: seq<Byte>)
    requires Reachable(s) && AllIdle(s) && !s.waitCalled && !s.freeCalled
    requires i < |s.clients| && data != []
    ensures WriteIsSafe(s, i, data) <==> s.finish.Running?
  {
    hide Reachable, AllIdle, WriteIsSafe;
    if s.finish.Running? {
      EarlyWriteIsSafe(s, i, data);
    } else {
      LateWriteIsUnsafe(s, i, data);
    }
  }

  // ----- Closing after wait -----

  /** A step of the drain thread, of a write call, or the start of a close call. */
  predicate BeforeClose(step: Step) {
    WriteOrDrain(step) || (step.Client? && step.c.BeginClose?)
  }

  /** However the threads are scheduled around the close request of client `i`, the file is closed in the end. */
  ghost predicate CloseIsSure(s: State, i: nat) {
    forall early: seq<Step>, late: seq<Step> ::
      (forall step | step in early :: BeforeClose(step)) && Legal(s, early)
      && Enabled(Exec(s, early), Client(i, SetClose)) && Legal(Apply(Exec(s, early), Client(i, SetClose)), late)
      && DrainGone(Exec(Apply(Exec(s, early), Client(i, SetClose)), late))
      ==> Exec(Apply(Exec(s, early), Client(i, SetClose)), late).closes == 1
  }

  lemma BeforeCloseKeepsFinish(s: State, step: Step)
    requires Enabled(s, step) && BeforeClose(step)
    ensures Apply(s, step).finish == s.finish
  {
    hide NextPc, NextLock, Request, DrainEnabled, ClientEnabled;
    match step
    case Drain(d) => hide ClientApply;
    case Client(i, c) => hide DrainApply;
  }

  lemma {:induction false} BeforeCloseRun(s: State, run: seq<Step>)
    requires Reachable(s) && Legal(s, run) && forall step | step in run :: BeforeClose(step)
    ensures Reachable(Exec(s, run)) && Exec(s, run).finish == s.finish
    decreases |run|
  {
    hide Apply, Enabled;
    if run != [] {
      StepReachable(s, run[0]);
      BeforeCloseKeepsFinish(s, run[0]);
      BeforeCloseRun(Apply(s, run[0]), run[1..]);
    }
  }

  lemma CloseRequested(s: State, i: nat)
    requires Enabled(s, Client(i, SetClose))
    ensures var t := Apply(s, Client(i, SetClose)); t.finish.Close? && t.drain == s.drain && t.closes == s.closes
  {
    hide NextPc, NextLock, Request;
  }

  lemma EarlyCloseIsSure(s: State, i: nat)
    requires Reachable(s) && s.finish.Running?
    ensures CloseIsSure(s, i)
  {
    forall early: seq<Step>, late: seq<Step> |
      (forall step | step in early :: BeforeClose(step)) && Legal(s, early)
      && Enabled(Exec(s, early), Client(i, SetClose)) && Legal(Apply(Exec(s, early), Client(i, SetClose)), late)
      && DrainGone(Exec(Apply(Exec(s, early), Client(i, SetClose)), late))
      ensures Exec(Apply(Exec(s, early), Client(i, SetClose)), late).closes == 1
    {
      var t := Exec(s, early);
      BeforeCloseRun(s, early);
      ReachableInv(t);
      StepReachable(t, Client(i, SetClose));
      CloseRequested(t, i);
      CloseRequestCloses(Apply(t, Client(i, SetClose)), late);
    }
  }

  /** After wait has been called, the drain thread can leave first, and then nothing closes the file. */
  lemma LateCloseIsNotSure(s: State, i: nat)
    requires Reachable(s) && AllIdle(s) && s.finish.Exit? && !s.freeCalled && i < |s.clients|
    ensures !CloseIsSure(s, i)
  {
    ReachableInv(s);
    var alone := DrainFinishes(s);
    var t := Exec(s, alone);
    RunKeepsInv(s, alone);
    assert t.closes == 0;
    var begin := Client(i, BeginClose);
    assert Enabled(t, begin);
    var early := alone + [begin];
    ExecSnoc(s, alone, begin);
    var u := Apply(t, begin);
    assert Enabled(u, Client(i, SetClose)) && u.closes == 0 && DrainGone(u);
    CloseRequested(u, i);
    var v := Apply(u, Client(i, SetClose));
    hide Apply, Enabled, Reachable, Inv;
    assert Legal(v, []) && Exec(v, []) == v;
    assert forall step | step in early :: BeforeClose(step);
    assert Exec(Apply(Exec(s, early), Client(i, SetClose)), []).closes == 0;
  }

  /**
   * The exact guard for closing.  Between calls, and before any close, a close is certain to be carried out when the
   * drain thread leaves if and only if wait has not been called yet.
   */
  lemma CloseIsSureExactly(s: State, i: nat)
    requires Reachable(s) && AllIdle(s) && !s.finish.Close? && !s.freeCalled && i < |s.clients|
    ensures CloseIsSure(s, i) <==> s.finish.Running?
  {
    hide Reachable, AllIdle, CloseIsSure;
    if s.finish.Running? {
      EarlyCloseIsSure(s, i);
    } else {
      LateCloseIsNotSure(s, i);
    }
  }

  // ----- Every schedule ends -----

  /** A step that continues a call under way, other than one more write in a section, or one of the drain thread. */
  predicate Progresses(step: Step) {
    !IsBegin(step) && !(step.Client? && step.c.Append?)
  }

  /** How many steps a client still needs to finish its call. */
  function ClientRank(pc: ClientPc): nat {
    match pc
    case Idle => 0
    case InSection(_) => 2
    case InClose => 2
    case InWait => 3
    case OwesSignal(thenJoin) => if thenJoin then 2 else 1
    case Joining => 1
    case InFree => 2
    case FreeReleased(_) => 1
  }

  function ClientRanks(clients: seq<ClientPc>): nat {
    if clients == [] then 0 else ClientRanks(clients[..|clients| - 1]) + ClientRank(clients[|clients| - 1])
  }

  lemma {:induction false} RanksUpdate(clients: seq<ClientPc>, i: nat, pc: ClientPc)
    requires i < |clients|
    ensures ClientRanks(clients[i := pc]) == ClientRanks(clients) - ClientRank(clients[i]) + ClientRank(pc)
    decreases |clients|
  {
    hide ClientRank;
    var last := |clients| - 1;
    if i == last {
      assert clients[i := pc][..last] == clients[..last];
    } else {
      assert clients[i := pc][..last] == clients[..last][i := pc];
      RanksUpdate(clients[..last], i, pc);
    }
  }

  function TotalRank(s: State): nat {
    Rank(s) + ClientRanks(s.clients)
  }

  lemma DrainRank(s: State, d: DrainStep)
    requires DrainEnabled(s, d) && !s.finish.Running?
    ensures var t := DrainApply(s, d); Rank(t) < Rank(s) && t.clients == s.clients && t.finish == s.finish
  {
  }

  lemma ClientRankFalls(s: State, i: nat, c: ClientStep)
    requires ClientEnabled(s, i, c) && Progresses(Client(i, c)) && !s.finish.Running?
    ensures var t := ClientApply(s, i, c);
      && t.clients == s.clients[i := NextPc(s, i, c)] && ClientRank(NextPc(s, i, c)) < ClientRank(s.clients[i])
      && t.drain == s.drain && t.queue == s.queue && !t.finish.Running?
  {
    hide NextLock, Request;
  }

  lemma ProgressFalls(s: State, step: Step)
    requires Enabled(s, step) && Progresses(step) && !s.finish.Running?
    ensures TotalRank(Apply(s, step)) < TotalRank(s) && !Apply(s, step).finish.Running?
  {
    hide ClientRank, ClientRanks, NextPc;
    match step
    case Drain(d) =>
      DrainRank(s, d);
      hide DrainApply, Rank, ClientApply;
    case Client(i, c) =>
      ClientRankFalls(s, i, c);
      RanksUpdate(s.clients, i, NextPc(s, i, c));
      hide ClientApply, DrainApply, Progresses;
  }

  lemma {:induction false} ProgressIsBounded(s: State, run: seq<Step>)
    requires Legal(s, run) && !s.finish.Running? && forall step | step in run :: Progresses(step)
    ensures |run| + TotalRank(Exec(s, run)) <= TotalRank(s) && !Exec(s, run).finish.Running?
    decreases |run|
  {
    hide Apply, Enabled, TotalRank, Progresses;
    if run != [] {
      ProgressFalls(s, run[0]);
      ProgressIsBounded(Apply(s, run[0]), run[1..]);
    }
  }

  /** Where no call can go on, all have returned and the drain thread has left. */
  lemma StuckMeansDone(s: State)
    requires Reachable(s) && !s.finish.Running?
    requires forall step | Progresses(step) :: !Enabled(s, step)
    ensures s.drain.Exited? && AllIdle(s)
  {
    ReachableInv(s);
    if !s.drain.Exited? {
      var step := CallContinues(s);
      assert Progresses(step);
    }
    forall i | 0 <= i < |s.clients| ensures s.clients[i].Idle? {
      if !s.clients[i].Idle? {
        var c := match s.clients[i]
                 case InSection(_) => EndSection case InClose => SetClose case InWait => SetWait
                 case OwesSignal(_) => Signal case Joining => Join case InFree => DropReference case _ => DeleteStruct;
        assert Progresses(Client(i, c)) && Enabled(s, Client(i, c));
      }
    }
  }

  lemma {:induction false} RunReachable(s: State, run: seq<Step>)
    requires Reachable(s) && Legal(s, run)
    ensures Reachable(Exec(s, run))
    decreases |run|
  {
    hide Apply, Enabled, Reachable;
    if run != [] {
      StepReachable(s, run[0]);
      RunReachable(Apply(s, run[0]), run[1..]);
    }
  }

  /**
   * Liveness under every schedule.  After a finish request, if no new call is begun and no section goes on writing,
   * every schedule takes at most `TotalRank(s)` steps; and where it cannot go on, every call, wait included, has
   * returned and the drain thread has left with everything written that was queued before it left.
   */
  lemma EveryScheduleEnds(s: State, run: seq<Step>)
    requires Reachable(s) && !s.finish.Running? && Legal(s, run) && forall step | step in run :: Progresses(step)
    ensures |run| <= TotalRank(s)
    ensures var t := Exec(s, run);
      (forall step | Progresses(step) :: !Enabled(t, step)) ==>
        t.drain.Exited? && AllIdle(t) && (!DrainGone(s) || s.file == s.enqueued ==> s.enqueued <= t.file)
  {
    ProgressIsBounded(s, run);
    RunReachable(s, run);
    var t := Exec(s, run);
    hide Progresses, Apply, Reachable, TotalRank;
    if forall step | Progresses(step) :: !Enabled(t, step) {
      StuckMeansDone(t);
      DeliveredWhenGone(s, run);
    }
  }
}
