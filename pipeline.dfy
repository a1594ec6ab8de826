/**
 * The producer and the controller run together. The producer blocks on the
 * acknowledgment pipe after each request and the controller acts only once
 * a request has arrived, so each handshake has one meaningful order: the
 * producer writes the request, the monitor stores it in the request cell,
 * the outgoing sink leaves its checkpoint in the status cell, the controller
 * serves the request and acknowledges it, and the producer reads the
 * acknowledgment. `LockStep` runs the whole demo in that order.
 */
module Pipeline {
  import opened Pipes
  import opened Producer
  import opened Controller
  import Harness

  /**
   * One handshake, from the producer's request for module `need` to the
   * acknowledgment it reads back; `checkpoint` is what the outgoing sink
   * leaves in the status cell. The controller stops the running sink,
   * installs the requested one at the checkpoint and acknowledges `need`.
   */
  method Handshake(host: Host, requestPipe: Pipe, ackPipe: Pipe, need: int, checkpoint: nat)
    returns (ack: Option<int>)
    requires host.Valid() && !host.wedged && !host.finished
    requires need == 1 || need == 2
    requires requestPipe != ackPipe
    requires requestPipe.items == [] && ackPipe.items == []
    modifies host, host.prRequest, host.workStatus, requestPipe, ackPipe
    ensures host.Valid() && !host.wedged && !host.finished
    ensures host.prRequest == old(host.prRequest) && host.workStatus == old(host.workStatus)
    ensures requestPipe.items == [] && ackPipe.items == []
    ensures ack == Some(need)
    ensures host.currentModule == need && host.sink == Slot(need, checkpoint, true)
    ensures host.events == old(host.events) + Response(old(host.currentModule), need, checkpoint)
  {
    requestPipe.Write(need);
    var served := PrRequestKernel(requestPipe, host.prRequest);
    host.workStatus[0] := checkpoint;
    var reply := host.Serve(ackPipe);
    ack := ackPipe.Read();
  }

  /**
   * Element `x` in lock step: when the producer needs another module than
   * the one it adopted, the handshake for that module runs first; then the
   * producer processes the element with the acknowledgment it read. Both
   * sides then agree on the element's class, and it is the running sink's.
   */
  method Element(host: Host, requestPipe: Pipe, ackPipe: Pipe, c: Cursor, x: int, threshold: int, checkpoint: nat)
    returns (r: Cursor)
    requires host.Valid() && !host.wedged && !host.finished
    requires requestPipe != ackPipe
    requires requestPipe.items == [] && ackPipe.items == []
    requires !c.stalled && c.adopted == host.currentModule
    modifies host, host.prRequest, host.workStatus, requestPipe, ackPipe
    ensures host.Valid() && !host.wedged && !host.finished
    ensures host.prRequest == old(host.prRequest) && host.workStatus == old(host.workStatus)
    ensures requestPipe.items == [] && ackPipe.items == []
    ensures var need := Class(x, threshold);
      && r == Advance(c, x, threshold, if c.adopted != need then Some(need) else None)
      && r.adopted == host.currentModule == host.sink.variant == need
      && Acks(host.events) == Acks(old(host.events)) + (if c.adopted != need then [need] else [])
  {
    var need := Class(x, threshold);
    var ack: Option<int> := None;
    if c.adopted != need {
      ResponseAcks(c.adopted, need, checkpoint);
      AcksAppend(host.events, Response(c.adopted, need, checkpoint));
      ack := Handshake(host, requestPipe, ackPipe, need, checkpoint);
    }
    r := Advance(c, x, threshold, ack);
  }

  /**
   * Element i of `xs` in a run whose acknowledgments are the class changes
   * of `xs`: the producer's state advances to that of the run over the
   * first i + 1 elements, and the controller has acknowledged exactly the
   * requests made so far.
   */
  method Deliver(host: Host, requestPipe: Pipe, ackPipe: Pipe, xs: seq<int>, i: nat, threshold: int,
                 run: Cursor, checkpoint: nat)
    returns (next: Cursor)
    requires host.Valid() && !host.wedged && !host.finished
    requires requestPipe != ackPipe
    requires requestPipe.items == [] && ackPipe.items == []
    requires i < |xs| && run == Feed(xs[..i], threshold, 1, Changes(xs, threshold, 1))
    requires run.adopted == host.currentModule && Acks(host.events) == run.requests
    modifies host, host.prRequest, host.workStatus, requestPipe, ackPipe
    ensures host.Valid() && !host.wedged && !host.finished
    ensures host.prRequest == old(host.prRequest) && host.workStatus == old(host.workStatus)
    ensures requestPipe.items == [] && ackPipe.items == []
    ensures next == Feed(xs[..i + 1], threshold, 1, Changes(xs, threshold, 1))
    ensures next.adopted == host.currentModule == host.sink.variant == Class(xs[i], threshold)
    ensures Acks(host.events) == next.requests
  {
    EchoStep(xs, i, threshold, 1, Changes(xs, threshold, 1));
    next := Element(host, requestPipe, ackPipe, run, xs[i], threshold, checkpoint);
  }

  /**
   * The end of the run: the producer's sentinel 0 reaches the request cell,
   * the controller ignores it, and the sink of the final module is stopped.
   */
  method Finish(host: Host, requestPipe: Pipe, ackPipe: Pipe)
    requires host.Valid() && !host.wedged && !host.finished
    requires requestPipe != ackPipe
    requires requestPipe.items == [] && ackPipe.items == []
    modifies host, host.prRequest, requestPipe, ackPipe
    ensures host.Valid() && host.finished
    ensures host.events == old(host.events) + StopFor(old(host.currentModule))
    ensures host.currentModule == old(host.currentModule)
    ensures ExclusiveFrom(Idle, host.events) && !ReplayFrom(Idle, host.events).running
    ensures Acks(host.events) == Acks(old(host.events))
  {
    AcksAppend(host.events, StopFor(host.currentModule));
    assert Acks(StopFor(host.currentModule)) == [] by {
      assert StopFor(host.currentModule)[1..] == [];
    }
    requestPipe.Write(0);
    var served := PrRequestKernel(requestPipe, host.prRequest);
    var reply := host.Serve(ackPipe);
    assert host.events == old(host.events) + [];
    host.Teardown();
  }

  /**
   * The producer's loop over `xs` in lock step with the controller, where
   * `resume(k)` is the checkpoint the outgoing sink leaves at the k-th
   * handshake: the producer's state is that of a run whose
   * acknowledgments are exactly the class changes, the controller has
   * acknowledged exactly those, and the running sink when output i is
   * written is the class of element i.
   */
  method Stream(host: Host, requestPipe: Pipe, ackPipe: Pipe, xs: seq<int>, threshold: int, resume: nat -> nat)
    returns (run: Cursor, active: seq<int>)
    requires host.Valid() && !host.wedged && !host.finished && host.currentModule == 1 && Acks(host.events) == []
    requires requestPipe != ackPipe
    requires requestPipe.items == [] && ackPipe.items == []
    modifies host, host.prRequest, host.workStatus, requestPipe, ackPipe
    ensures host.Valid() && !host.wedged && !host.finished
    ensures host.prRequest == old(host.prRequest)
    ensures requestPipe.items == [] && ackPipe.items == []
    ensures run == Feed(xs, threshold, 1, Changes(xs, threshold, 1))
    ensures run.adopted == host.currentModule
    ensures Acks(host.events) == run.requests
    ensures |active| == |xs|
    ensures forall i :: 0 <= i < |xs| ==> active[i] == Class(xs[i], threshold)
  {
    run := Start(host.currentModule);
    active := [];
    var handshakes: nat := 0;
    var i := 0;
    while i < |xs|
      invariant 0 <= i <= |xs|
      invariant host.Valid() && !host.wedged && !host.finished
      invariant host.prRequest == old(host.prRequest) && host.workStatus == old(host.workStatus)
      invariant requestPipe.items == [] && ackPipe.items == []
      invariant run == Feed(xs[..i], threshold, 1, Changes(xs, threshold, 1))
      invariant run.adopted == host.currentModule
      invariant Acks(host.events) == run.requests
      invariant |active| == i
      invariant forall j :: 0 <= j < i ==> active[j] == Class(xs[j], threshold)
    {
      var checkpoint := resume(handshakes);
      if run.adopted != Class(xs[i], threshold) {
        handshakes := handshakes + 1;
      }
      run := Deliver(host, requestPipe, ackPipe, xs, i, threshold, run, checkpoint);
      active := active + [host.sink.variant];
      i := i + 1;
    }
    assert xs[..i] == xs;
  }

  /**
   * The whole run on input `src`, with `resume(k)` the checkpoint the
   * outgoing sink leaves at the k-th handshake. The controller starts on
   * module 1 with sink 1 at offset 0 and the producer is launched with that
   * same module. Then: the producer's traffic is what it produces when every
   * request is acknowledged with the id it asked for; its requests are
   * exactly the class changes, closed by the sentinel; every output is its
   * element under the element's own module, and the sink running when it is
   * written is that module's; the slot never hosts two sinks at once, and
   * no sink runs once the demo has finished.
   */
  method LockStep(src: array<int>, threshold: int, resume: nat -> nat)
    returns (host: Host, run: Cursor, active: seq<int>)
    ensures run == Produce(src[..], threshold, 1, Changes(src[..], threshold, 1))
    ensures !run.stalled && run.requests == Changes(src[..], threshold, 1) + [0]
    ensures |run.outputs| == src.Length
    ensures forall i :: 0 <= i < src.Length ==> run.outputs[i] == src[i] + Increment(Class(src[i], threshold))
    ensures |active| == src.Length
    ensures forall i :: 0 <= i < src.Length ==> active[i] == Class(src[i], threshold)
    ensures Acks(host.events) == Changes(src[..], threshold, 1)
    ensures host.currentModule == LastClass(src[..], threshold, 1)
    ensures ExclusiveFrom(Idle, host.events) && !ReplayFrom(Idle, host.events).running
    ensures host.Valid() && host.finished
  {
    var xs := src[..];
    host := new Host();
    var requestPipe := new Pipe();
    var ackPipe := new Pipe();
    assert Acks(host.events) == [] by {
      assert host.events[1..] == [];
    }
    run, active := Stream(host, requestPipe, ackPipe, xs, threshold, resume);
    EchoRun(xs, threshold, 1, Changes(xs, threshold, 1));
    assert host.currentModule == LastClass(xs, threshold, 1);
    Finish(host, requestPipe, ackPipe);
    run := run.(requests := run.requests + [0]);
    EchoProduce(xs, threshold, 1);
    assert src[..] == xs;
  }

  /**
   * The host's own test input (1 at even indices, -1 at odd ones, threshold
   * 0, initial module 1): the classes alternate 2, 1, 2, 1, ... starting
   * with a change, so the producer requests a reconfiguration at every
   * element, alternating between the two modules.
   */
  lemma {:induction false} FixtureChanges(n: nat)
    ensures var r := Changes(Harness.Fill(n), 0, 1);
      |r| == n && forall i :: 0 <= i < n ==> r[i] == if i % 2 == 0 then 2 else 1
  {
    if n > 0 {
      FixtureChanges(n - 1);
      FixtureChange(n);
      AlternatingExtend(Changes(Harness.Fill(n - 1), 0, 1), n - 1);
    }
  }

  /** Appending the next module of the alternation 2, 1, 2, ... keeps it alternating. */
  lemma AlternatingExtend(p: seq<int>, k: nat)
    requires |p| == k && forall i :: 0 <= i < k ==> p[i] == if i % 2 == 0 then 2 else 1
    ensures var r := p + [if k % 2 == 0 then 2 else 1];
      |r| == k + 1 && forall i :: 0 <= i < k + 1 ==> r[i] == if i % 2 == 0 then 2 else 1
  {
  }

  /** The last element of that input always changes the class: to 2 at an even index, to 1 at an odd one. */
  lemma FixtureChange(n: nat)
    requires n > 0
    ensures Changes(Harness.Fill(n), 0, 1) == Changes(Harness.Fill(n - 1), 0, 1) + [if (n - 1) % 2 == 0 then 2 else 1]
  {
    var f := Harness.Fill(n);
    assert f[..n - 1] == Harness.Fill(n - 1);
    assert LastClass(f[..n - 1], 0, 1) != Producer.Class(f[n - 1], 0);
  }

  /**
   * On that input, with every request acknowledged, the producer writes 3 at
   * even indices and 0 at odd ones, while the checker expects 4 and 0: the
   * producer's module-2 value and the checker's differ by one.
   */
  lemma FixtureRun(n: nat)
    ensures var r := Produce(Harness.Fill(n), 0, 1, Changes(Harness.Fill(n), 0, 1));
      && |r.requests| == n + 1 && r.requests[n] == 0
      && (forall i :: 0 <= i < n ==> r.requests[i] == if i % 2 == 0 then 2 else 1)
      && |r.outputs| == n
      && (forall i :: 0 <= i < n ==> r.outputs[i] == if i % 2 == 0 then 3 else 0)
      && (forall i :: 0 <= i < n ==> Harness.Expected(Harness.Fill(n)[i], 0) == if i % 2 == 0 then 4 else 0)
  {
    FixtureChanges(n);
    EchoRun(Harness.Fill(n), 0, 1, Changes(Harness.Fill(n), 0, 1));
  }
}
