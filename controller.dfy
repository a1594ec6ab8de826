/**
 * The reconfiguration controller of the host program: the body of its
 * polling loop, which serves one reconfiguration request, and the stop
 * sent to the sink when the producer has finished.
 *
 * Slot 1 hosts one sink kernel at a time, sink 1 or sink 2. The controller
 * records what it asks of the slot and of the producer as a log of events;
 * `Slot` is the sink handle (`ev_sink`): which sink was last submitted,
 * where it resumes, and whether it is still running. `ReplayFrom` recovers
 * the handle from the log and `ExclusiveFrom` says that no sink was ever
 * submitted while another one was still running.
 */
module Controller {
  import opened Pipes
  import Producer

  /** What the controller submits, in order. */
  datatype Event =
    | Stop(variant: int)                  // stop request to sink `variant`
    | Launch(variant: int, resumeAt: nat) // sink `variant` submitted to slot 1, resuming at `resumeAt`
    | ArmMonitor                          // request monitor submitted again
    | Ack(moduleId: int)                  // acknowledgment kernel submitted with `moduleId`

  /** The sink handle: the sink last submitted, its resume offset, and whether it runs. */
  datatype Slot = Slot(variant: int, resumeAt: nat, running: bool)

  /** A slot on which nothing has been submitted yet. */
  const Idle: Slot := Slot(0, 0, false)

  /** A stop request ends the sink it names if that sink is the one running; a launch installs a sink. */
  function Apply(s: Slot, e: Event): Slot
  {
    match e
    case Stop(v) => if s.running && s.variant == v then s.(running := false) else s
    case Launch(v, at) => Slot(v, at, true)
    case _ => s
  }

  /** The sink handle after the events `es`, starting from `s`. */
  function ReplayFrom(s: Slot, es: seq<Event>): Slot
    decreases |es|
  {
    if es == [] then s else ReplayFrom(Apply(s, es[0]), es[1..])
  }

  /** No event of `es` submits a sink while another one is still running. */
  predicate ExclusiveFrom(s: Slot, es: seq<Event>)
    decreases |es|
  {
    es == [] || ((es[0].Launch? ==> !s.running) && ExclusiveFrom(Apply(s, es[0]), es[1..]))
  }

  /** The module ids acknowledged in `es`, in order. */
  function Acks(es: seq<Event>): seq<int>
    decreases |es|
  {
    if es == [] then [] else (if es[0].Ack? then [es[0].moduleId] else []) + Acks(es[1..])
  }

  /** The stop request for the sink that matches `m`; none unless `m` is 1 or 2. */
  function StopFor(m: int): (r: seq<Event>)
    ensures (m == 1 || m == 2) ==> r == [Stop(m)]
    ensures !(m == 1 || m == 2) ==> r == []
  {
    if m == 1 then [Stop(1)] else if m == 2 then [Stop(2)] else []
  }

  /**
   * What one pass of the controller loop submits for `request`, with
   * `current` the current module and `checkpoint` the value of the status
   * cell once the stopped sink has finished. It is the loop's behaviour for
   * `current` 1 or 2, which is all the host ever holds: with any other
   * current module no sink is stopped, and the host would wait forever for
   * the sink it did not stop (main.cpp:189) before submitting anything.
   */
  function Response(current: int, request: int, checkpoint: nat): seq<Event>
  {
    if request == 0 then []
    else if request == 1 || request == 2 then StopFor(current) + [Launch(request, checkpoint), ArmMonitor, Ack(request)]
    else StopFor(current)
  }

  /**
   * The shape of a response: a request of 0 is ignored; a stop goes only to
   * the sink of the current module, and first; only request 1 or 2 installs
   * a sink, the one requested, at the checkpoint; after it the monitor is
   * re-armed and then the requested id is acknowledged, last.
   */
  lemma ResponseShape(current: int, request: int, checkpoint: nat)
    ensures var r := Response(current, request, checkpoint);
      && (request == 0 ==> r == [])
      && (forall e :: e in r && e.Stop? ==> e == Stop(current))
      && (request != 0 && (current == 1 || current == 2) ==> |r| > 0 && r[0] == Stop(current))
      && (forall e :: e in r && e.Launch? ==> e == Launch(request, checkpoint))
      && ((request == 1 || request == 2) ==>
            |r| >= 3 && r[|r| - 3..] == [Launch(request, checkpoint), ArmMonitor, Ack(request)])
      && (request != 1 && request != 2 ==> forall e :: e in r ==> !e.Launch? && !e.Ack?)
  {
    var r := Response(current, request, checkpoint);
    var rest := [Launch(request, checkpoint), ArmMonitor, Ack(request)];
    if request == 0 {
    } else if request == 1 || request == 2 {
      if current == 1 || current == 2 {
        assert r == [Stop(current)] + rest;
      } else {
        assert r == rest;
      }
    } else if current == 1 || current == 2 {
      assert r == [Stop(current)];
    } else {
      assert r == [];
    }
  }

  lemma {:induction false} ReplayAppend(s: Slot, a: seq<Event>, b: seq<Event>)
    ensures ReplayFrom(s, a + b) == ReplayFrom(ReplayFrom(s, a), b)
    decreases |a|
  {
    if a != [] {
      assert (a + b)[1..] == a[1..] + b;
      ReplayAppend(Apply(s, a[0]), a[1..], b);
    } else {
      assert a + b == b;
    }
  }

  lemma {:induction false} ExclusiveAppend(s: Slot, a: seq<Event>, b: seq<Event>)
    ensures ExclusiveFrom(s, a + b) <==> ExclusiveFrom(s, a) && ExclusiveFrom(ReplayFrom(s, a), b)
    decreases |a|
  {
    if a != [] {
      assert (a + b)[1..] == a[1..] + b;
      assert (a + b)[0] == a[0];
      ExclusiveAppend(Apply(s, a[0]), a[1..], b);
    } else {
      assert a + b == b;
    }
  }

  lemma {:induction false} AcksAppend(a: seq<Event>, b: seq<Event>)
    ensures Acks(a + b) == Acks(a) + Acks(b)
    decreases |a|
  {
    if a != [] {
      assert (a + b)[1..] == a[1..] + b;
      assert (a + b)[0] == a[0];
      AcksAppend(a[1..], b);
    } else {
      assert a + b == b;
    }
  }

  /**
   * When the running sink (if any) is the current module's, serving any
   * request keeps the slot exclusive: the old sink is stopped before a new
   * one is submitted. Afterwards request 1 or 2 leaves the requested sink
   * running from the checkpoint, request 0 leaves the slot as it was, and
   * any other id leaves no sink running.
   */
  lemma ResponseSlot(s: Slot, current: int, request: int, checkpoint: nat)
    requires s.running ==> s.variant == current && (current == 1 || current == 2)
    ensures ExclusiveFrom(s, Response(current, request, checkpoint))
    ensures ReplayFrom(s, Response(current, request, checkpoint)) ==
      if request == 0 then s
      else if request == 1 || request == 2 then Slot(request, checkpoint, true)
      else s.(running := false)
  {
    var stop := StopFor(current);
    StopsRunningSink(s, current);
    if request == 1 || request == 2 {
      var rest := [Launch(request, checkpoint), ArmMonitor, Ack(request)];
      assert Response(current, request, checkpoint) == stop + rest;
      InstallsSink(s.(running := false), request, checkpoint);
      ReplayAppend(s, stop, rest);
      ExclusiveAppend(s, stop, rest);
    }
  }

  /**
   * The same over the whole log: appending a response to a log that kept
   * the slot exclusive keeps it exclusive, and the sink handle replayed
   * from the log is the one described above.
   */
  lemma ResponseLog(es: seq<Event>, current: int, request: int, checkpoint: nat)
    requires ExclusiveFrom(Idle, es)
    requires ReplayFrom(Idle, es).running ==> ReplayFrom(Idle, es).variant == current && (current == 1 || current == 2)
    ensures ExclusiveFrom(Idle, es + Response(current, request, checkpoint))
    ensures ReplayFrom(Idle, es + Response(current, request, checkpoint)) ==
      if request == 0 then ReplayFrom(Idle, es)
      else if request == 1 || request == 2 then Slot(request, checkpoint, true)
      else ReplayFrom(Idle, es).(running := false)
  {
    ResponseSlot(ReplayFrom(Idle, es), current, request, checkpoint);
    ReplayAppend(Idle, es, Response(current, request, checkpoint));
    ExclusiveAppend(Idle, es, Response(current, request, checkpoint));
  }

  /** The stop for the current module leaves no sink running. */
  lemma StopsRunningSink(s: Slot, current: int)
    requires s.running ==> s.variant == current && (current == 1 || current == 2)
    ensures ReplayFrom(s, StopFor(current)) == s.(running := false)
    ensures ExclusiveFrom(s, StopFor(current))
  {
    if current == 1 || current == 2 {
      assert StopFor(current)[1..] == [];
    }
  }

  /** On a stopped slot, submitting the requested sink, re-arming and acknowledging leaves that sink running. */
  lemma InstallsSink(t: Slot, request: int, checkpoint: nat)
    requires !t.running
    ensures ReplayFrom(t, [Launch(request, checkpoint), ArmMonitor, Ack(request)]) == Slot(request, checkpoint, true)
    ensures ExclusiveFrom(t, [Launch(request, checkpoint), ArmMonitor, Ack(request)])
  {
    var rest := [Launch(request, checkpoint), ArmMonitor, Ack(request)];
    var running := Slot(request, checkpoint, true);
    var tail := [Ack(request)];
    assert rest[1..] == [ArmMonitor] + tail && ([ArmMonitor] + tail)[1..] == tail && tail[1..] == [];
    assert ReplayFrom(running, tail) == running && ExclusiveFrom(running, tail);
    assert ReplayFrom(running, [ArmMonitor] + tail) == running && ExclusiveFrom(running, [ArmMonitor] + tail);
  }

  /** Only requests 1 and 2 are acknowledged, each with its own id, once. */
  lemma ResponseAcks(current: int, request: int, checkpoint: nat)
    ensures Acks(Response(current, request, checkpoint)) == if request == 1 || request == 2 then [request] else []
  {
    var stop := StopFor(current);
    assert Acks(stop) == [] by {
      if current == 1 || current == 2 {
        assert stop[1..] == [];
      }
    }
    if request == 1 || request == 2 {
      var rest := [Launch(request, checkpoint), ArmMonitor, Ack(request)];
      assert rest[1..] == [ArmMonitor, Ack(request)] && rest[1..][1..] == [Ack(request)];
      assert Acks([Ack(request)]) == [request] by {
        assert [Ack(request)][1..] == [];
      }
      AcksAppend(stop, rest);
      assert Response(current, request, checkpoint) == stop + rest;
    }
  }

  /**
   * A request for the module that is already current is not skipped: the
   * running sink is stopped and the same sink is submitted again at the
   * checkpoint before the request is acknowledged.
   */
  lemma ResponseRepeat(m: int, checkpoint: nat)
    requires m == 1 || m == 2
    ensures Response(m, m, checkpoint) == [Stop(m), Launch(m, checkpoint), ArmMonitor, Ack(m)]
  {
    assert StopFor(m) == [Stop(m)];
  }

  /** What one pass of the loop reports. */
  datatype Reply =
    | NoRequest          // the request cell held 0
    | Acked(moduleId: int)
    | Wedged             // waiting forever for a sink that is never submitted

  /** The host side of the demo: its request and status cells, its current module and the sink handle. */
  class Host {
    var currentModule: int
    var prRequest: array<int>  // the request cell the monitor writes
    var workStatus: array<nat> // the checkpoint cell the sink writes
    var sink: Slot
    var events: seq<Event>
    var wedged: bool   // waiting forever for a sink that never runs
    var finished: bool // the final sink has been stopped

    ghost predicate Valid()
      reads this
    {
      && prRequest.Length == 1 && workStatus.Length == 1
      && sink == ReplayFrom(Idle, events)
      && ExclusiveFrom(Idle, events)
      && (currentModule == 1 || currentModule == 2)
      && !(wedged && finished)
      && (wedged || finished <==> !sink.running)
      && (!wedged ==> sink.variant == currentModule)
    }

    /** Both cells start at 0, the current module is 1 and sink 1 is submitted to resume at 0. */
    constructor ()
      ensures Valid() && !wedged && !finished
      ensures fresh(prRequest) && fresh(workStatus)
      ensures prRequest[0] == 0 && workStatus[0] == 0
      ensures currentModule == 1
      ensures events == [Launch(1, 0)] && sink == Slot(1, 0, true)
    {
      prRequest := new int[1](_ => 0);
      workStatus := new nat[1](_ => 0);
      currentModule := 1;
      events := [Launch(1, 0)];
      sink := Slot(1, 0, true);
      wedged := false;
      finished := false;
      new;
      assert ReplayFrom(Idle, events) == ReplayFrom(sink, []);
    }

    /** Records `e` and applies it to the sink handle. */
    method Submit(e: Event)
      modifies this
      ensures events == old(events) + [e] && sink == Apply(old(sink), e)
      ensures currentModule == old(currentModule) && wedged == old(wedged) && finished == old(finished)
      ensures prRequest == old(prRequest) && workStatus == old(workStatus)
    {
      events := events + [e];
      sink := Apply(sink, e);
    }

    /**
     * One pass of the loop once the request monitor has completed: a
     * request of 0 is ignored; otherwise the sink of the current module is
     * stopped, the checkpoint is read, the requested sink is submitted at
     * it, and once it runs the current module becomes the request, the
     * monitor is re-armed and the request is acknowledged.
     */
    method Serve(ackPipe: Pipe) returns (reply: Reply)
      requires Valid() && !wedged && !finished
      modifies this, ackPipe
      ensures Valid() && !finished
      ensures prRequest == old(prRequest) && workStatus == old(workStatus)
      ensures var request, checkpoint := prRequest[0], workStatus[0];
        && events == old(events) + Response(old(currentModule), request, checkpoint)
        && (request == 0 ==>
              reply == NoRequest && !wedged && currentModule == old(currentModule) && sink == old(sink)
              && ackPipe.items == old(ackPipe.items))
        && (request == 1 || request == 2 ==>
              reply == Acked(request) && !wedged && currentModule == request
              && sink == Slot(request, checkpoint, true)
              && ackPipe.items == old(ackPipe.items) + [request])
        && (request != 0 && request != 1 && request != 2 ==>
              reply == Wedged && wedged && currentModule == old(currentModule)
              && ackPipe.items == old(ackPipe.items))
    {
      ghost var response := Response(currentModule, prRequest[0], workStatus[0]);
      var requestId := prRequest[0];
      reply := NoRequest;
      if requestId != 0 {
        ResponseLog(events, currentModule, requestId, workStatus[0]);
        StopCurrent();
        // the stopped sink has finished and left its checkpoint in the status cell
        var resumeAddr := workStatus[0];
        LaunchRequested(requestId, resumeAddr);
        if !sink.running {
          // no sink was submitted: the handle polled for `running` never runs again
          wedged := true;
          reply := Wedged;
          assert events == old(events) + response;
          return;
        }
        currentModule := requestId;
        Submit(ArmMonitor);
        Producer.PrAckKernel(ackPipe, currentModule);
        Submit(Ack(currentModule));
        reply := Acked(requestId);
        assert events == old(events) + response;
      }
    }

    /** Stops the sink of the current module, if the current module is 1 or 2. */
    method StopCurrent()
      requires sink.running ==> sink.variant == currentModule && (currentModule == 1 || currentModule == 2)
      modifies this
      ensures events == old(events) + StopFor(currentModule) && sink == old(sink).(running := false)
      ensures currentModule == old(currentModule) && wedged == old(wedged) && finished == old(finished)
      ensures prRequest == old(prRequest) && workStatus == old(workStatus)
    {
      if currentModule == 1 {
        Submit(Stop(1));
      } else if currentModule == 2 {
        Submit(Stop(2));
      }
    }

    /** Submits the sink for `requestId` at `resumeAddr`, if the id is 1 or 2. */
    method LaunchRequested(requestId: int, resumeAddr: nat)
      modifies this
      ensures requestId == 1 || requestId == 2 ==>
        events == old(events) + [Launch(requestId, resumeAddr)] && sink == Slot(requestId, resumeAddr, true)
      ensures !(requestId == 1 || requestId == 2) ==> events == old(events) && sink == old(sink)
      ensures currentModule == old(currentModule) && wedged == old(wedged) && finished == old(finished)
      ensures prRequest == old(prRequest) && workStatus == old(workStatus)
    {
      if requestId == 1 {
        Submit(Launch(1, resumeAddr));
      } else if requestId == 2 {
        Submit(Launch(2, resumeAddr));
      }
    }

    /** Once the producer has finished: stop the sink of the current module. */
    method Teardown()
      requires Valid() && !wedged && !finished
      modifies this
      ensures Valid() && finished && !wedged
      ensures events == old(events) + StopFor(old(currentModule))
      ensures sink == ReplayFrom(Idle, events) && ExclusiveFrom(Idle, events) && !sink.running
      ensures currentModule == old(currentModule)
      ensures prRequest == old(prRequest) && workStatus == old(workStatus)
    {
      ReplayAppend(Idle, events, StopFor(currentModule));
      ExclusiveAppend(Idle, events, StopFor(currentModule));
      StopsRunningSink(sink, currentModule);
      StopCurrent();
      finished := true;
    }
  }
}
