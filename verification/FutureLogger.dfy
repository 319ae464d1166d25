/**
 * The deferred logger as a step system: any number of concurrent Log calls and one Set call.  A Log call
 * first looks at the logger pointer without the lock and, if it is still null, once more under the lock.
 * Message `i` is the argument of the `i`th Log call.
 */
module FutureLogger {

  datatype Holder = Nobody | BySet | ByLog(who: nat)

  datatype SetPc =
    | NotStarted
    | Entered                  // holding the lock, pointer not yet exchanged
    | Delivering(next: nat)    // pointer visible to everyone, pending[next..] still to be delivered
    | SetDone

  datatype LogPc =
    | Start
    | Direct                   // saw the logger without the lock
    | WantLock                 // saw null
    | InLock
    | LogDone

  datatype State = State(
    isSet: bool,
    lock: Holder,
    pending: seq<nat>,
    setter: SetPc,
    logs: seq<LogPc>,
    delivered: seq<nat>,       // the messages the real logger received, in order
    queued: seq<nat>           // history: the messages put into the pending list, in order
  )

  datatype Step =
    | SetEnter | SetPublish | SetDeliver | SetLeave
    | LogLook(i: nat) | LogDirect(i: nat) | LogEnter(i: nat) | LogLocked(i: nat)

  function Init(n: nat): State {
    State(false, Nobody, [], NotStarted, seq(n, _ => Start), [], [])
  }

  predicate Enabled(s: State, step: Step) {
    match step
    case SetEnter => s.setter.NotStarted? && s.lock.Nobody?
    case SetPublish => s.setter.Entered?
    case SetDeliver => s.setter.Delivering? && s.setter.next < |s.pending|
    case SetLeave => s.setter.Delivering? && s.setter.next >= |s.pending|
    case LogLook(i) => i < |s.logs| && s.logs[i].Start?
    case LogDirect(i) => i < |s.logs| && s.logs[i].Direct?
    case LogEnter(i) => i < |s.logs| && s.logs[i].WantLock? && s.lock.Nobody?
    case LogLocked(i) => i < |s.logs| && s.logs[i].InLock?
  }

  function Apply(s: State, step: Step): State
    requires Enabled(s, step)
  {
    match step
    case SetEnter => s.(lock := BySet, setter := Entered)
    case SetPublish => s.(isSet := true, setter := Delivering(0))
    case SetDeliver =>
      s.(delivered := s.delivered + [s.pending[s.setter.next]], setter := Delivering(s.setter.next + 1))
    case SetLeave => s.(pending := [], lock := Nobody, setter := SetDone)
    case LogLook(i) => s.(logs := s.logs[i := if s.isSet then Direct else WantLock])
    case LogDirect(i) => s.(delivered := s.delivered + [i], logs := s.logs[i := LogDone])
    case LogEnter(i) => s.(lock := ByLog(i), logs := s.logs[i := InLock])
    case LogLocked(i) =>
      var t := s.(lock := Nobody, logs := s.logs[i := LogDone]);
      if s.isSet then t.(delivered := s.delivered + [i])
      else t.(pending := s.pending + [i], queued := s.queued + [i])
  }

  predicate Legal(s: State, steps: seq<Step>)
    decreases |steps|
  {
    steps == [] || (Enabled(s, steps[0]) && Legal(Apply(s, steps[0]), steps[1..]))
  }

  function Exec(s: State, steps: seq<Step>): State
    requires Legal(s, steps)
    decreases |steps|
  {
    if steps == [] then s else Exec(Apply(s, steps[0]), steps[1..])
  }

  // ----- The invariant -----

  /** How many of the queued messages have been delivered. */
  function Handed(s: State): nat {
    match s.setter
    case Delivering(next) => next
    case SetDone => |s.queued|
    case _ => 0
  }

  predicate LockOk(s: State) {
    && (s.lock.BySet? <==> s.setter.Entered? || s.setter.Delivering?)
    && (s.lock.ByLog? ==> s.lock.who < |s.logs|)
    && (forall i | 0 <= i < |s.logs| :: s.logs[i].InLock? <==> s.lock == ByLog(i))
    && (s.isSet <==> s.setter.Delivering? || s.setter.SetDone?)
  }

  predicate QueueOk(s: State) {
    && (s.setter.SetDone? ==> s.pending == [])
    && (!s.setter.SetDone? ==> s.pending == s.queued)
    && (!s.isSet ==> s.delivered == [])
    && Handed(s) <= |s.queued|
    && (forall i | 0 <= i < |s.logs| :: s.logs[i].Direct? ==> s.isSet)
  }

  /** Every message of a finished Log call is delivered or still waiting, once; no other message is anywhere. */
  ghost predicate OnceOk(s: State)
    requires Handed(s) <= |s.queued|
  {
    forall i: nat :: OnceFor(s, i)
  }

  predicate OnceFor(s: State, i: nat)
    requires Handed(s) <= |s.queued|
  {
    Count(s.delivered, i) + Count(s.queued[Handed(s)..], i)
    == if i < |s.logs| && s.logs[i].LogDone? then 1 else 0
  }

  function Count(ids: seq<nat>, i: nat): nat {
    if ids == [] then 0 else Count(ids[..|ids| - 1], i) + if ids[|ids| - 1] == i then 1 else 0
  }

  /** The members of `ids` that occur in `among`, in their order in `ids`. */
  function Restrict(ids: seq<nat>, among: seq<nat>): seq<nat> {
    if ids == [] then []
    else Restrict(ids[..|ids| - 1], among) + if ids[|ids| - 1] in among then [ids[|ids| - 1]] else []
  }

  /** The queued messages delivered so far are the first ones queued, in that order. */
  predicate OrderOk(s: State)
    requires Handed(s) <= |s.queued|
  {
    Restrict(s.delivered, s.queued) == s.queued[..Handed(s)]
  }

  ghost predicate Inv(s: State) {
    LockOk(s) && QueueOk(s) && OnceOk(s) && OrderOk(s)
  }

  // ----- Counting -----

  lemma CountSnoc(ids: seq<nat>, x: nat, i: nat)
    ensures Count(ids + [x], i) == Count(ids, i) + if x == i then 1 else 0
  {
    assert (ids + [x])[..|ids|] == ids;
  }

  lemma {:induction false} CountCons(x: nat, ids: seq<nat>, i: nat)
    ensures Count([x] + ids, i) == (if x == i then 1 else 0) + Count(ids, i)
  {
    if ids == [] {
      assert [x] + ids == [x];
      CountSnoc([], x, i);
      assert [] + [x] == [x];
    } else {
      var last := |ids| - 1;
      assert ([x] + ids)[..last + 1] == [x] + ids[..last];
      CountCons(x, ids[..last], i);
    }
  }

  lemma {:induction false} CountIn(ids: seq<nat>, i: nat)
    ensures Count(ids, i) > 0 <==> i in ids
  {
    if ids != [] {
      var last := |ids| - 1;
      assert ids == ids[..last] + [ids[last]];
      CountIn(ids[..last], i);
    }
  }

  lemma RestrictSnoc(ids: seq<nat>, x: nat, among: seq<nat>)
    ensures Restrict(ids + [x], among) == Restrict(ids, among) + if x in among then [x] else []
  {
    assert (ids + [x])[..|ids|] == ids;
  }

  /** A message that was not delivered yet does not change what is selected. */
  lemma {:induction false} RestrictMore(ids: seq<nat>, among: seq<nat>, x: nat)
    requires x !in ids
    ensures Restrict(ids, among + [x]) == Restrict(ids, among)
  {
    if ids != [] {
      RestrictMore(ids[..|ids| - 1], among, x);
      assert ids[|ids| - 1] in among + [x] <==> ids[|ids| - 1] in among;
    }
  }

  // ----- Every step keeps the invariant -----

  lemma StepShape(s: State, step: Step)
    requires LockOk(s) && QueueOk(s) && Enabled(s, step)
    ensures LockOk(Apply(s, step)) && QueueOk(Apply(s, step))
  {
  }

  lemma DeliverOnceFor(s: State, i: nat)
    requires LockOk(s) && QueueOk(s) && OnceFor(s, i) && Enabled(s, SetDeliver)
    requires Handed(Apply(s, SetDeliver)) <= |Apply(s, SetDeliver).queued|
    ensures OnceFor(Apply(s, SetDeliver), i)
  {
    hide Count;
    var t := Apply(s, SetDeliver);
    var x := s.pending[s.setter.next];
    CountSnoc(s.delivered, x, i);
    CountCons(x, t.queued[Handed(t)..], i);
    assert s.queued[Handed(s)..] == [x] + t.queued[Handed(t)..];
  }

  lemma DirectOnceFor(s: State, j: nat, i: nat)
    requires LockOk(s) && QueueOk(s) && OnceFor(s, i) && Enabled(s, LogDirect(j))
    ensures OnceFor(Apply(s, LogDirect(j)), i)
  {
    hide Count;
    CountSnoc(s.delivered, j, i);
  }

  lemma LockedOnceFor(s: State, j: nat, i: nat)
    requires LockOk(s) && QueueOk(s) && OnceFor(s, i) && Enabled(s, LogLocked(j))
    requires Handed(Apply(s, LogLocked(j))) <= |Apply(s, LogLocked(j)).queued|
    ensures OnceFor(Apply(s, LogLocked(j)), i)
  {
    hide Count;
    var t := Apply(s, LogLocked(j));
    CountSnoc(s.delivered, j, i);
    CountSnoc(s.queued[Handed(s)..], j, i);
    if !s.isSet {
      assert t.queued[Handed(t)..] == s.queued[Handed(s)..] + [j];
    }
  }

  lemma OtherOnceFor(s: State, step: Step, i: nat)
    requires LockOk(s) && QueueOk(s) && OnceFor(s, i) && Enabled(s, step)
    requires !step.SetDeliver? && !step.LogDirect? && !step.LogLocked?
    requires Handed(Apply(s, step)) <= |Apply(s, step).queued|
    ensures OnceFor(Apply(s, step), i)
  {
    OtherHanded(s, step);
    OtherDone(s, step, i);
    hide Count, Apply, Enabled, LockOk, QueueOk, Handed;
  }

  lemma OtherHanded(s: State, step: Step)
    requires QueueOk(s) && LockOk(s) && Enabled(s, step)
    requires !step.SetDeliver? && !step.LogDirect? && !step.LogLocked?
    ensures var t := Apply(s, step); Handed(t) == Handed(s) && t.queued == s.queued && t.delivered == s.delivered
  {
  }

  lemma OtherDone(s: State, step: Step, i: nat)
    requires Enabled(s, step) && !step.SetDeliver? && !step.LogDirect? && !step.LogLocked?
    ensures var t := Apply(s, step);
      |t.logs| == |s.logs| && (i < |s.logs| ==> (t.logs[i].LogDone? <==> s.logs[i].LogDone?))
  {
  }

  lemma StepOnceFor(s: State, step: Step, i: nat)
    requires LockOk(s) && QueueOk(s) && OnceFor(s, i) && Enabled(s, step)
    requires Handed(Apply(s, step)) <= |Apply(s, step).queued|
    ensures OnceFor(Apply(s, step), i)
  {
    hide Apply, OnceFor, LockOk, QueueOk;
    match step
    case SetDeliver => DeliverOnceFor(s, i);
    case LogDirect(j) => DirectOnceFor(s, j, i);
    case LogLocked(j) => LockedOnceFor(s, j, i);
    case _ => OtherOnceFor(s, step, i);
  }

  lemma StepOnce(s: State, step: Step)
    requires Inv(s) && Enabled(s, step)
    ensures Handed(Apply(s, step)) <= |Apply(s, step).queued| && OnceOk(Apply(s, step))
  {
    StepShape(s, step);
    forall i: nat ensures OnceFor(Apply(s, step), i) {
      assert OnceFor(s, i);
      StepOnceFor(s, step, i);
    }
  }

  /** A message whose Log call has not finished is nowhere yet. */
  lemma Fresh(s: State, i: nat)
    requires Inv(s) && i < |s.logs| && !s.logs[i].LogDone?
    ensures i !in s.delivered && i !in s.queued
  {
    assert OnceFor(s, i);
    CountIn(s.delivered, i);
    CountIn(s.queued[Handed(s)..], i);
    if i in s.queued[..Handed(s)] {
      RestrictSubset(s.delivered, s.queued, i);
      assert false;
    }
    assert s.queued == s.queued[..Handed(s)] + s.queued[Handed(s)..];
  }

  lemma {:induction false} RestrictSubset(ids: seq<nat>, among: seq<nat>, i: nat)
    requires i in Restrict(ids, among)
    ensures i in ids
  {
    if ids[|ids| - 1] != i {
      RestrictSubset(ids[..|ids| - 1], among, i);
    }
  }

  /** Delivering a message that was never queued does not change what is selected. */
  lemma DeliverOther(s: State, i: nat)
    requires Inv(s) && i < |s.logs| && !s.logs[i].LogDone?
    ensures Restrict(s.delivered + [i], s.queued) == Restrict(s.delivered, s.queued)
  {
    Fresh(s, i);
    hide Restrict;
    RestrictSnoc(s.delivered, i, s.queued);
    assert Restrict(s.delivered, s.queued) + [] == Restrict(s.delivered, s.queued);
  }

  lemma DeliverNext(s: State)
    requires Inv(s) && Enabled(s, SetDeliver)
    ensures OrderOk(Apply(s, SetDeliver))
  {
    hide Restrict;
    var k := Handed(s);
    RestrictSnoc(s.delivered, s.pending[k], s.queued);
    assert s.queued[..k + 1] == s.queued[..k] + [s.queued[k]];
  }

  lemma StepOrder(s: State, step: Step)
    requires Inv(s) && Enabled(s, step)
    ensures Handed(Apply(s, step)) <= |Apply(s, step).queued| && OrderOk(Apply(s, step))
  {
    StepShape(s, step);
    var t := Apply(s, step);
    match step
    case SetDeliver => DeliverNext(s);
    case LogDirect(i) => DeliverOther(s, i);
    case LogLocked(i) =>
      if s.isSet {
        DeliverOther(s, i);
      } else {
        Fresh(s, i);
        RestrictMore(s.delivered, s.queued, i);
        hide Restrict;
        assert t.queued[..Handed(t)] == s.queued[..Handed(s)];
      }
    case _ =>
      hide Restrict;
      assert t.queued[..Handed(t)] == s.queued[..Handed(s)];
  }

  lemma {:induction false} RunKeepsInv(s: State, steps: seq<Step>)
    requires Inv(s) && Legal(s, steps)
    ensures Inv(Exec(s, steps)) && |Exec(s, steps).logs| == |s.logs|
    decreases |steps|
  {
    if steps != [] {
      StepShape(s, steps[0]);
      StepOnce(s, steps[0]);
      StepOrder(s, steps[0]);
      RunKeepsInv(Apply(s, steps[0]), steps[1..]);
    }
  }

  lemma InitInv(n: nat)
    ensures Inv(Init(n))
  {
  }

  // ----- Main results -----

  predicate AllDone(s: State) {
    s.setter.SetDone? && forall i | 0 <= i < |s.logs| :: s.logs[i].LogDone?
  }

  /**
   * Exactly once.  For every number of Log calls and every interleaving with one Set: when all calls are
   * finished, the real logger has received each message once and nothing else.
   */
  lemma DeliveredExactlyOnce(n: nat, steps: seq<Step>, i: nat)
    requires Legal(Init(n), steps) && AllDone(Exec(Init(n), steps))
    ensures Count(Exec(Init(n), steps).delivered, i) == if i < n then 1 else 0
  {
    InitInv(n);
    RunKeepsInv(Init(n), steps);
    var s := Exec(Init(n), steps);
    assert OnceFor(s, i) && s.queued[Handed(s)..] == [];
  }

  /** The messages that were pending when the logger was set are received in the order they were queued. */
  lemma PendingDeliveredInOrder(n: nat, steps: seq<Step>)
    requires Legal(Init(n), steps)
    ensures var s := Exec(Init(n), steps);
      && Restrict(s.delivered, s.queued) <= s.queued
      && (s.setter.SetDone? ==> Restrict(s.delivered, s.queued) == s.queued && s.pending == [])
  {
    InitInv(n);
    RunKeepsInv(Init(n), steps);
    var s := Exec(Init(n), steps);
    assert s.queued[..|s.queued|] == s.queued;
  }

  /** Before the logger is set nothing is lost either: every finished call's message is pending. */
  lemma NothingLostBeforeSet(n: nat, steps: seq<Step>, i: nat)
    requires Legal(Init(n), steps) && !Exec(Init(n), steps).isSet && i < n
    ensures var s := Exec(Init(n), steps);
      |s.logs| == n && s.delivered == [] && (i in s.pending <==> s.logs[i].LogDone?)
  {
    InitInv(n);
    RunKeepsInv(Init(n), steps);
    var s := Exec(Init(n), steps);
    CountIn(s.queued, i);
    assert OnceFor(s, i);
    assert s.queued[0..] == s.queued;
  }

  /** No call waits forever: until every call is finished, some step is possible. */
  lemma NoDeadlock(n: nat, steps: seq<Step>)
    requires Legal(Init(n), steps) && !AllDone(Exec(Init(n), steps))
    ensures exists step :: Enabled(Exec(Init(n), steps), step)
  {
    InitInv(n);
    RunKeepsInv(Init(n), steps);
    var s := Exec(Init(n), steps);
    if s.lock.ByLog? {
      assert Enabled(s, LogLocked(s.lock.who));
    } else if s.lock.BySet? {
      assert Enabled(s, if s.setter.Entered? then SetPublish
                        else if s.setter.next < |s.pending| then SetDeliver else SetLeave);
    } else if s.setter.NotStarted? {
      assert Enabled(s, SetEnter);
    } else {
      var i :| 0 <= i < |s.logs| && !s.logs[i].LogDone?;
      var step := if s.logs[i].Start? then LogLook(i) else if s.logs[i].Direct? then LogDirect(i) else LogEnter(i);
      assert Enabled(s, step);
    }
  }

  // ----- The order of one thread's own messages -----

  /** Message `i` was received before message `j`. */
  ghost predicate Before(ids: seq<nat>, i: nat, j: nat) {
    exists p, q :: 0 <= p < q < |ids| && ids[p] == i && ids[q] == j
  }

  /** Whatever happens after `s`, the real logger receives `i` before `j`. */
  ghost predicate OrderIsSure(s: State, i: nat, j: nat) {
    forall run: seq<Step> | Legal(s, run) ::
      j in Exec(s, run).delivered ==> Before(Exec(s, run).delivered, i, j)
  }

  lemma StepDelivers(s: State, step: Step)
    requires Enabled(s, step)
    ensures s.delivered <= Apply(s, step).delivered
  {
  }

  lemma {:induction false} RunDelivers(s: State, run: seq<Step>)
    requires Legal(s, run)
    ensures s.delivered <= Exec(s, run).delivered
    decreases |run|
  {
    hide Apply, Enabled;
    if run != [] {
      StepDelivers(s, run[0]);
      RunDelivers(Apply(s, run[0]), run[1..]);
    }
  }

  lemma ReceivedStaysFirst(s: State, i: nat, j: nat)
    requires i in s.delivered && j !in s.delivered
    ensures OrderIsSure(s, i, j)
  {
    forall run: seq<Step> | Legal(s, run) && j in Exec(s, run).delivered
      ensures Before(Exec(s, run).delivered, i, j)
    {
      RunDelivers(s, run);
      var d := Exec(s, run).delivered;
      var p :| 0 <= p < |s.delivered| && s.delivered[p] == i;
      var q :| 0 <= q < |d| && d[q] == j;
      assert d[p] == i && s.delivered == d[..|s.delivered|];
    }
  }

  lemma {:induction false} RunSnoc(s: State, run: seq<Step>, step: Step)
    requires Legal(s, run) && Enabled(Exec(s, run), step)
    ensures Legal(s, run + [step]) && Exec(s, run + [step]) == Apply(Exec(s, run), step)
    decreases |run|
  {
    hide Apply, Enabled;
    if run == [] {
      assert run + [step] == [step] && [step][1..] == [];
      assert Legal(Apply(s, step), []) && Exec(Apply(s, step), []) == Apply(s, step);
    } else {
      assert (run + [step])[1..] == run[1..] + [step];
      RunSnoc(Apply(s, run[0]), run[1..], step);
    }
  }

  /** A schedule that only publishes the logger: whoever holds the lock leaves, and Set takes its first two steps. */
  lemma Publish(s: State, i: nat, j: nat) returns (run: seq<Step>)
    requires Inv(s) && j < |s.logs| && s.logs[j].Start? && i !in s.delivered && i < |s.logs| && s.logs[i].LogDone?
    ensures Legal(s, run)
    ensures var t := Exec(s, run); t.isSet && |t.logs| == |s.logs| && t.logs[j].Start? && t.delivered == s.delivered
  {
    run := [];
    assert Exec(s, []) == s;
    if !s.isSet {
      if s.lock.ByLog? {
        RunSnoc(s, run, LogLocked(s.lock.who));
        run := run + [LogLocked(s.lock.who)];
      }
      if Exec(s, run).setter.NotStarted? {
        RunSnoc(s, run, SetEnter);
        run := run + [SetEnter];
      }
      RunSnoc(s, run, SetPublish);
      run := run + [SetPublish];
    }
  }

  lemma UnreceivedCanFollow(s: State, i: nat, j: nat)
    requires Inv(s) && j < |s.logs| && s.logs[j].Start? && i < |s.logs| && s.logs[i].LogDone? && i !in s.delivered
    ensures !OrderIsSure(s, i, j)
  {
    var run := Publish(s, i, j);
    var t := Exec(s, run);
    RunSnoc(s, run, LogLook(j));
    var look := run + [LogLook(j)];
    assert Exec(s, look).logs[j].Direct?;
    RunSnoc(s, look, LogDirect(j));
    var all := look + [LogDirect(j)];
    var d := Exec(s, all).delivered;
    assert d == s.delivered + [j] && d[|s.delivered|] == j;
    forall p, q | 0 <= p < q < |d| ensures !(d[p] == i && d[q] == j) {
      assert d[p] == s.delivered[p];
    }
    assert !Before(d, i, j);
  }

  /**
   * When a thread logs `j` after its call for `i` has returned, the real logger is certain to receive `i` first if
   * and only if it has received it already.  A message that is still pending can be overtaken while Set delivers.
   */
  lemma OwnOrderExactly(n: nat, steps: seq<Step>, i: nat, j: nat)
    requires Legal(Init(n), steps) && i < |Exec(Init(n), steps).logs| && j < |Exec(Init(n), steps).logs|
    requires Exec(Init(n), steps).logs[i].LogDone? && Exec(Init(n), steps).logs[j].Start?
    ensures OrderIsSure(Exec(Init(n), steps), i, j) <==> i in Exec(Init(n), steps).delivered
  {
    InitInv(n);
    RunKeepsInv(Init(n), steps);
    var s := Exec(Init(n), steps);
    Fresh(s, j);
    if i in s.delivered {
      ReceivedStaysFirst(s, i, j);
    } else {
      UnreceivedCanFollow(s, i, j);
    }
  }
}
