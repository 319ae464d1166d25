/** The step system on the real ring buffer: the abstract queue and the in-flight bytes are what the arrays hold. */
module AioRefinement {
  import opened Bytes
  import opened AioRing
  import opened AioProtocol

  /** The queue never needs a buffer larger than 2^31 bytes, the limit of `AioRing.GrowthTerminatesExactly`. */
  predicate Fits(s: State, steps: seq<Step>)
    requires Legal(s, steps)
    decreases |steps|
  {
    |s.queue| < 0x8000_0000 && (steps == [] || Fits(Apply(s, steps[0]), steps[1..]))
  }

  /** The ring and the local buffer hold what the step system says. */
  ghost predicate Holds(aio: AsyncIo, local: array<Byte>, len: nat, file: seq<Byte>, s: State)
    reads aio, aio.buffer, local
  {
    && aio.Valid() && aio.Contents() == s.queue && file == s.file
    && len <= local.Length && (s.drain.Writing? ==> local[..len] == s.drain.local)
  }

  /** What a client's step does to the queue and to the file. */
  lemma ClientEffect(s: State, i: nat, c: ClientStep)
    requires ClientEnabled(s, i, c)
    ensures var t := ClientApply(s, i, c);
      t.queue == (if c.Append? then s.queue + c.data else s.queue) && t.file == s.file && t.drain == s.drain
  {
    hide NextPc, NextLock, Request, ClientEnabled;
  }

  /** What a step of the drain thread does to them. */
  lemma DrainEffect(s: State, d: DrainStep)
    requires DrainEnabled(s, d)
    ensures var t := DrainApply(s, d); var n := Min(|s.queue|, ASYNC_LOCAL_BUFSIZE);
      && t.queue == (if d.Loop? then s.queue[n..] else s.queue)
      && t.file == (if d.Write? then s.file + s.drain.local else s.file)
      && (t.drain.Writing? <==> d.Loop? && s.queue != [])
      && (t.drain.Writing? ==> t.drain == Writing(s.queue[..n]))
  {
  }

  /** One pass of the drain loop on the ring: the positions tell whether there is anything to write. */
  method Pass(aio: AsyncIo) returns (some: bool, local: array<Byte>, len: nat)
    requires aio.Valid()
    modifies aio
    ensures aio.Valid() && aio.buffer == old(aio.buffer) && fresh(local) && len <= local.Length
    ensures some <==> old(aio.Contents()) != []
    ensures aio.Contents() == old(aio.Contents())[Min(|old(aio.Contents())|, ASYNC_LOCAL_BUFSIZE)..]
    ensures some ==> local[..len] == old(aio.Contents())[..Min(|old(aio.Contents())|, ASYNC_LOCAL_BUFSIZE)]
  {
    hide View;
    ghost var length := aio.BufferLen();
    if aio.readPos == aio.writePos {
      some, local, len := false, new Byte[0], 0;
    } else {
      some := true;
      local, len := aio.TakeChunk();
    }
  }

  method Act(aio: AsyncIo, local: array<Byte>, len: nat, file: seq<Byte>, step: Step, ghost s: State)
    returns (local': array<Byte>, len': nat, file': seq<Byte>)
    requires Enabled(s, step) && Holds(aio, local, len, file, s) && |Apply(s, step).queue| < 0x8000_0000
    requires local != aio.buffer
    modifies aio, aio.buffer
    ensures Holds(aio, local', len', file', Apply(s, step))
    ensures aio.buffer == old(aio.buffer) || fresh(aio.buffer)
    ensures (local' == local || fresh(local')) && local' != aio.buffer
  {
    hide View, ClientApply, DrainApply, ClientEnabled, BufferSize;
    local', len', file' := local, len, file;
    match step
    case Client(i, c) =>
      ClientEffect(s, i, c);
      if c.Append? {
        ghost var length := aio.BufferLen();
        aio.WriteUnlocked(c.data);
      }
    case Drain(d) =>
      DrainEffect(s, d);
      if d.Loop? {
        var some, chunk, count := Pass(aio);
        if some {
          local', len' := chunk, count;
        }
      } else if d.Write? {
        file' := file + local[..len];
      }
  }

  lemma LegalStep(s: State, steps: seq<Step>)
    requires Legal(s, steps) && steps != []
    ensures Enabled(s, steps[0]) && Legal(Apply(s, steps[0]), steps[1..])
    ensures Exec(s, steps) == Exec(Apply(s, steps[0]), steps[1..])
  {
  }

  /**
   * The whole protocol on the ring.  For every number of clients and every interleaving, the bytes that go
   * through the ring and the local buffers to the file, and the bytes left in the ring, are those of the
   * step system, so all that is proved about it holds of the arrays.
   */
  method RunOnRing(n: nat, steps: seq<Step>) returns (aio: AsyncIo, file: seq<Byte>)
    requires Legal(Init(n), steps) && Fits(Init(n), steps)
    ensures aio.Valid() && aio.Contents() == Exec(Init(n), steps).queue && file == Exec(Init(n), steps).file
  {
    hide View, Apply, Enabled, BufferSize;
    aio := new AsyncIo();
    file := [];
    var local, len := new Byte[0], 0;
    ghost var s := Init(n);
    for i := 0 to |steps|
      invariant fresh(aio) && fresh(aio.buffer) && fresh(local) && local != aio.buffer
      invariant Holds(aio, local, len, file, s)
      invariant Legal(s, steps[i..]) && Fits(s, steps[i..])
      invariant Exec(s, steps[i..]) == Exec(Init(n), steps)
    {
      var step := steps[i];
      LegalStep(s, steps[i..]);
      assert steps[i..][0] == step && steps[i..][1..] == steps[i + 1..];
      local, len, file := Act(aio, local, len, file, step, s);
      s := Apply(s, step);
    }
  }
}
