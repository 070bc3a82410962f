/**
 * The queued log writer returned by `makeLogger`: lines are queued in FIFO order
 * and a `write` pass drains the queue into the file stream, stopping when the
 * stream reports that its buffer is full and resuming on the stream's `'drain'`.
 *
 * The event loop is made explicit: `ticks` counts pending `process.nextTick(write)`
 * callbacks and `drainListeners` pending `once('drain', write)` registrations; the
 * environment runs them through `RunTick` and `EmitDrain`.
 */
module Logger {

  /** The file stream: every written line is appended; whether its buffer still has room is its own affair. */
  class LogStream {
    ghost var written: seq<string>

    constructor ()
      ensures written == []
    {
      written := [];
    }

    /** `stream.write(line)`: `accepted` is false when the stream asks the writer to wait for `'drain'`. */
    method Write(line: string) returns (accepted: bool)
      modifies this
      ensures written == old(written) + [line]
    {
      written := written + [line];
      accepted :| true;
    }
  }

  class QueuedLogger {
    const stream: LogStream
    var queue: seq<string>
    var buffWaiting: bool
    var ticks: nat
    var drainListeners: nat
    ghost var logged: seq<string>

    /**
     * Every line logged so far is in the file or still queued, in order; at most
     * one write pass is pending; a pending pass finds work; a pending drain
     * listener goes with `buffWaiting`; and queued lines with no `buffWaiting`
     * always have a pass pending.
     */
    ghost predicate Valid()
      reads this, stream
    {
      stream.written + queue == logged &&
      ticks + drainListeners <= 1 &&
      (ticks == 1 ==> queue != [] && !buffWaiting) &&
      (drainListeners == 1 ==> buffWaiting) &&
      (queue != [] && !buffWaiting ==> ticks == 1)
    }

    /**
     * No pass is pending and `buffWaiting` is set: `Log` never schedules a pass
     * again, and neither `RunTick` nor `EmitDrain` can run.
     */
    ghost predicate Stuck()
      reads this
    {
      buffWaiting && ticks == 0 && drainListeners == 0
    }

    /** `makeLogger(file)`. */
    constructor ()
      ensures Valid() && fresh(stream) && stream.written == []
      ensures queue == [] && logged == [] && !buffWaiting && ticks == 0 && drainListeners == 0
    {
      stream := new LogStream();
      queue := [];
      buffWaiting := false;
      ticks := 0;
      drainListeners := 0;
      logged := [];
    }

    /** The function `makeLogger` returns: queue the line, and schedule a pass only if it is the sole queued line and no drain is awaited. */
    method Log(line: string)
      requires Valid()
      modifies this
      ensures Valid()
      ensures queue == old(queue) + [line] && logged == old(logged) + [line]
      ensures buffWaiting == old(buffWaiting) && drainListeners == old(drainListeners)
      ensures ticks == (if old(queue) == [] && !old(buffWaiting) then 1 else old(ticks))
      ensures old(Stuck()) ==> Stuck()
    {
      queue := queue + [line];
      logged := logged + [line];
      if |queue| > 1 || buffWaiting {
        return;
      }
      ticks := ticks + 1;
    }

    /** The `write` pass: hand queued lines to the stream, oldest first, until the queue is empty or the stream refuses. */
    method WritePass()
      requires stream.written + queue == logged && ticks == 0 && drainListeners == 0
      modifies this, stream
      ensures Valid() && logged == old(logged) && ticks == 0
      ensures stream.written + queue == old(stream.written) + old(queue)
      ensures |queue| <= |old(queue)| && queue == old(queue)[|old(queue)| - |queue|..]
      ensures drainListeners == 0 ==> queue == []
      ensures drainListeners == 1 ==> buffWaiting && |queue| < |old(queue)|
      ensures old(queue) != [] && drainListeners == 0 ==> !buffWaiting
      ensures old(queue) == [] ==> buffWaiting == old(buffWaiting) && drainListeners == 0
    {
      while queue != []
        invariant stream.written + queue == old(stream.written) + old(queue)
        invariant |queue| <= |old(queue)| && queue == old(queue)[|old(queue)| - |queue|..]
        invariant ticks == 0 && drainListeners == 0 && logged == old(logged)
        invariant buffWaiting == (if |queue| == |old(queue)| then old(buffWaiting) else false)
        decreases |queue|
      {
        var line := queue[0];
        queue := queue[1..];
        var accepted := stream.Write(line);
        if !accepted {
          drainListeners := drainListeners + 1;
          buffWaiting := true;
          break;
        }
        buffWaiting := false;
      }
    }

    /** The scheduled `process.nextTick(write)` runs. */
    method RunTick()
      requires Valid() && ticks > 0
      modifies this, stream
      ensures Valid() && logged == old(logged)
      ensures stream.written + queue == old(stream.written) + old(queue)
      ensures |queue| < |old(queue)|
      ensures queue == [] || (buffWaiting && drainListeners == 1)
      ensures buffWaiting <==> drainListeners == 1
    {
      ticks := ticks - 1;
      WritePass();
    }

    /** The stream emits `'drain'` and the one-shot listener runs `write`. */
    method EmitDrain()
      requires Valid() && drainListeners > 0
      modifies this, stream
      ensures Valid() && logged == old(logged)
      ensures stream.written + queue == old(stream.written) + old(queue)
      ensures queue == [] || drainListeners == 1
      ensures old(queue) == [] ==> Stuck()
      ensures old(queue) != [] ==> (buffWaiting <==> drainListeners == 1)
      ensures old(queue) != [] ==> |queue| < |old(queue)|
    {
      drainListeners := drainListeners - 1;
      WritePass();
    }
  }

  /**
   * A drain that arrives after the stream refused the last queued line finds an
   * empty queue, so `buffWaiting` stays set and later lines are never written.
   */
  method DrainOnEmptyQueue()
  {
    var logger := new QueuedLogger();
    logger.Log("a\n");
    assert logger.logged == ["a\n"];
    assert logger.stream.written == [];
    logger.RunTick();
    assert logger.logged == ["a\n"];
    if logger.queue == [] && logger.drainListeners == 1 {
      assert logger.stream.written == ["a\n"];
      logger.EmitDrain();
      assert logger.Stuck();
      logger.Log("b\n");
      logger.Log("c\n");
      assert logger.Stuck() && logger.queue == ["b\n", "c\n"] && logger.stream.written == ["a\n"];
    }
  }
}
