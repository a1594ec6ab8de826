/**
 * The producer kernel of slot 0 (`pr_src`) and its two mailbox kernels
 * (`pr_request_kernel`, `pr_ack_kernel`).
 *
 * The producer walks its input in index order. Each element needs sink
 * module 1 when it is below the threshold and module 2 otherwise. When the
 * module it last adopted is a different one, it writes a reconfiguration
 * request and adopts whatever module id the acknowledgment pipe delivers.
 * It then writes one value per element to the output pipe: the element
 * plus 1 (module 1) or plus 2 (module 2) when the adopted module matches,
 * and otherwise the previous value again. At the end it writes the
 * end-of-requests sentinel 0.
 *
 * The specification is a cursor advanced one element at a time
 * (`Advance`, `Feed`, `Produce`); the acknowledgments are an input, the
 * sequence of values the controller puts on the acknowledgment pipe.
 * `PrSrc` is the loop itself, over real pipes, proved equal to `Produce`.
 */
module Producer {
  import opened Pipes

  /** The module id an element needs: 1 below the threshold, 2 at or above it. */
  function Class(x: int, threshold: int): (r: int)
    ensures r == 1 || r == 2
    ensures r == 1 <==> x < threshold
  {
    if x < threshold then 1 else 2
  }

  /** What the producer adds to an element once the module it needs is adopted. */
  function Increment(m: int): int
  {
    if m == 1 then 1 else 2
  }

  /** The module needed by the last element, or the initial module when there is none. */
  function LastClass(xs: seq<int>, threshold: int, initialModule: int): int
  {
    if |xs| == 0 then initialModule else Class(xs[|xs| - 1], threshold)
  }

  /**
   * The producer's state after a prefix of its input, with everything it
   * has written so far. `stalled` means it wrote a request and is blocked
   * on an acknowledgment that never came; nothing changes after that.
   */
  datatype Cursor = Cursor(
    adopted: int,       // current_module
    writedata: int,     // the value most recently computed
    acksRead: nat,      // acknowledgments taken from the ack pipe
    outputs: seq<int>,  // values written to the output pipe
    requests: seq<int>, // values written to the request pipe
    stalled: bool)

  /** The state when the kernel is launched with `initialModule`. */
  function Start(initialModule: int): Cursor
  {
    Cursor(initialModule, 0, 0, [], [], false)
  }

  /** Computes and writes the output for element `x` that needs module `need`. */
  function Emit(c: Cursor, x: int, need: int): Cursor
  {
    var w := if c.adopted == need then x + Increment(need) else c.writedata;
    c.(writedata := w, outputs := c.outputs + [w])
  }

  /**
   * One iteration of the producer loop on element `x`. `ack` is what the
   * acknowledgment pipe delivers if the producer reads it (`None`: nothing
   * ever arrives).
   */
  function Advance(c: Cursor, x: int, threshold: int, ack: Option<int>): (r: Cursor)
    // a blocked producer does nothing more
    ensures c.stalled ==> r == c
    // a request is written exactly when the element's class differs from the adopted module
    ensures !c.stalled ==> (r.requests == c.requests <==> c.adopted == Class(x, threshold))
    // and the value requested is the element's class
    ensures !c.stalled && c.adopted != Class(x, threshold) ==> r.requests == c.requests + [Class(x, threshold)]
    // with no request there is no ack traffic and the module stays
    ensures !c.stalled && c.adopted == Class(x, threshold) ==> r.adopted == c.adopted && r.acksRead == c.acksRead
    // after a request the producer adopts whatever the acknowledgment says
    ensures !c.stalled && c.adopted != Class(x, threshold) && ack.Some? ==>
              r.adopted == ack.value && r.acksRead == c.acksRead + 1
    ensures r.stalled <==> c.stalled || (c.adopted != Class(x, threshold) && ack.None?)
    // exactly one output per element; none while blocked
    ensures r.stalled ==> r.outputs == c.outputs
    ensures !r.stalled ==> r.outputs == c.outputs + [r.writedata]
    // the output is the transformed element under a matching module, else the previous value
    ensures !r.stalled ==>
              r.writedata == if r.adopted == Class(x, threshold) then x + Increment(Class(x, threshold)) else c.writedata
  {
    if c.stalled then c
    else
      var need := Class(x, threshold);
      if c.adopted == need then Emit(c, x, need)
      else if ack.None? then c.(requests := c.requests + [need], stalled := true)
      else Emit(c.(adopted := ack.value, acksRead := c.acksRead + 1, requests := c.requests + [need]), x, need)
  }

  /** One iteration, reading the next unread value of `acks` when a request is written. */
  function Step(c: Cursor, x: int, threshold: int, acks: seq<int>): Cursor
  {
    Advance(c, x, threshold, if c.acksRead < |acks| then Some(acks[c.acksRead]) else None)
  }

  /** The state after the producer has processed all of `xs`. */
  function Feed(xs: seq<int>, threshold: int, initialModule: int, acks: seq<int>): Cursor
    decreases |xs|
  {
    if |xs| == 0 then Start(initialModule)
    else Step(Feed(xs[..|xs| - 1], threshold, initialModule, acks), xs[|xs| - 1], threshold, acks)
  }

  /** The whole run: the loop over `xs`, then the sentinel 0 unless the loop blocked. */
  function Produce(xs: seq<int>, threshold: int, initialModule: int, acks: seq<int>): Cursor
  {
    var c := Feed(xs, threshold, initialModule, acks);
    if c.stalled then c else c.(requests := c.requests + [0])
  }

  /**
   * The sequence of module ids the input asks for, one entry per class
   * change, counted from `initialModule`: a reference definition that does
   * not mention acknowledgments.
   */
  function Changes(xs: seq<int>, threshold: int, initialModule: int): (r: seq<int>)
    ensures |r| <= |xs|
    ensures forall k :: 0 <= k < |r| ==> r[k] == 1 || r[k] == 2
    ensures |r| > 0 ==> r[0] != initialModule
    ensures forall j, k :: 0 <= j < k < |r| && k == j + 1 ==> r[j] != r[k]
    ensures LastClass(xs, threshold, initialModule) == if |r| == 0 then initialModule else r[|r| - 1]
    decreases |xs|
  {
    if |xs| == 0 then []
    else
      var p := Changes(xs[..|xs| - 1], threshold, initialModule);
      var need := Class(xs[|xs| - 1], threshold);
      if LastClass(xs[..|xs| - 1], threshold, initialModule) == need then p else p + [need]
  }

  /** The class changes of a prefix are a prefix of the class changes of the whole input. */
  lemma {:induction false} ChangesPrefix(xs: seq<int>, k: nat, threshold: int, initialModule: int)
    requires k <= |xs|
    ensures Changes(xs[..k], threshold, initialModule) <= Changes(xs, threshold, initialModule)
    decreases |xs|
  {
    if k == |xs| {
      assert xs[..k] == xs;
    } else {
      var q := xs[..|xs| - 1];
      assert q[..k] == xs[..k];
      ChangesPrefix(q, k, threshold, initialModule);
    }
  }

  /**
   * What holds after any prefix, whatever the controller acknowledges:
   * every request is 1 or 2, each request but a pending one consumed one
   * acknowledgment, the module is the last acknowledgment read (or the
   * initial module), and one output was written per element processed.
   */
  lemma {:induction false} FeedInvariant(xs: seq<int>, threshold: int, initialModule: int, acks: seq<int>)
    ensures var r := Feed(xs, threshold, initialModule, acks);
      && r.acksRead <= |acks|
      && |r.requests| == r.acksRead + (if r.stalled then 1 else 0)
      && r.adopted == (if r.acksRead == 0 then initialModule else acks[r.acksRead - 1])
      && (forall k :: 0 <= k < |r.requests| ==> r.requests[k] == 1 || r.requests[k] == 2)
      && (if r.stalled then |r.outputs| < |xs| else |r.outputs| == |xs|)
    decreases |xs|
  {
    if |xs| > 0 {
      var p := xs[..|xs| - 1];
      FeedInvariant(p, threshold, initialModule, acks);
      var c := Feed(p, threshold, initialModule, acks);
      var r := Feed(xs, threshold, initialModule, acks);
      assert r == Step(c, xs[|xs| - 1], threshold, acks);
      assert forall k :: 0 <= k < |r.requests| ==> k < |c.requests| || r.requests[k] == Class(xs[|xs| - 1], threshold);
    }
  }

  /** Processing more input only extends what was written; a blocked run stays blocked. */
  lemma {:induction false} FeedPrefix(xs: seq<int>, k: nat, threshold: int, initialModule: int, acks: seq<int>)
    requires k <= |xs|
    ensures var p, r := Feed(xs[..k], threshold, initialModule, acks), Feed(xs, threshold, initialModule, acks);
      && p.outputs <= r.outputs
      && p.requests <= r.requests
      && p.acksRead <= r.acksRead
      && (p.stalled ==> r == p)
    decreases |xs|
  {
    if k == |xs| {
      assert xs[..k] == xs;
    } else {
      var q := xs[..|xs| - 1];
      assert q[..k] == xs[..k];
      FeedPrefix(q, k, threshold, initialModule, acks);
    }
  }

  /**
   * Output k is written while processing element k: the outputs come in
   * strictly increasing index order, one per element. It is the element
   * transformed by its class when the module adopted at that point matches
   * the class, and otherwise the previous output (0 for the first one).
   */
  lemma OutputOfElement(xs: seq<int>, k: nat, threshold: int, initialModule: int, acks: seq<int>)
    requires k < |xs|
    requires k < |Feed(xs, threshold, initialModule, acks).outputs|
    ensures |Feed(xs[..k], threshold, initialModule, acks).outputs| == k
    ensures !Feed(xs[..k + 1], threshold, initialModule, acks).stalled
    ensures var r, m, need := Feed(xs, threshold, initialModule, acks),
                              Feed(xs[..k + 1], threshold, initialModule, acks).adopted,
                              Class(xs[k], threshold);
      r.outputs[k] == if m == need then xs[k] + Increment(need) else if k == 0 then 0 else r.outputs[k - 1]
  {
    var r := Feed(xs, threshold, initialModule, acks);
    var p := Feed(xs[..k], threshold, initialModule, acks);
    var q := Feed(xs[..k + 1], threshold, initialModule, acks);
    FeedInvariant(xs, threshold, initialModule, acks);
    FeedPrefix(xs, k + 1, threshold, initialModule, acks);
    FeedInvariant(xs[..k + 1], threshold, initialModule, acks);
    assert !q.stalled;
    assert xs[..k + 1][..k] == xs[..k];
    assert q == Step(p, xs[k], threshold, acks);
    FeedInvariant(xs[..k], threshold, initialModule, acks);
    FeedPrefix(xs, k, threshold, initialModule, acks);
    LastOutput(xs[..k], threshold, initialModule, acks);
  }

  /** Until it blocks, the producer's `writedata` is the value it wrote last, or 0 before any. */
  lemma LastOutput(ys: seq<int>, threshold: int, initialModule: int, acks: seq<int>)
    requires !Feed(ys, threshold, initialModule, acks).stalled
    ensures var r := Feed(ys, threshold, initialModule, acks);
      |r.outputs| == |ys| && r.writedata == if |ys| == 0 then 0 else r.outputs[|ys| - 1]
  {
    FeedInvariant(ys, threshold, initialModule, acks);
    if |ys| > 0 {
      var c := Feed(ys[..|ys| - 1], threshold, initialModule, acks);
      FeedInvariant(ys[..|ys| - 1], threshold, initialModule, acks);
      assert Feed(ys, threshold, initialModule, acks) == Step(c, ys[|ys| - 1], threshold, acks);
    }
  }

  /** A run that finishes writes exactly one 0, as its last request; a blocked run writes none. */
  lemma SentinelOnce(xs: seq<int>, threshold: int, initialModule: int, acks: seq<int>)
    ensures var r := Produce(xs, threshold, initialModule, acks);
      && (!r.stalled ==> |r.requests| > 0 && r.requests[|r.requests| - 1] == 0)
      && (forall k :: 0 <= k < |r.requests| && r.requests[k] == 0 ==> !r.stalled && k == |r.requests| - 1)
  {
    FeedInvariant(xs, threshold, initialModule, acks);
  }

  /**
   * Composed with a controller that acknowledges every request with the
   * module id it asked for: the producer never blocks, its requests are
   * exactly the class changes, its module after the input is the class of
   * the last element, and no stale value is ever written -- every output is
   * its element transformed by the element's own class.
   */
  lemma {:induction false} EchoRun(xs: seq<int>, threshold: int, initialModule: int, acks: seq<int>)
    requires Changes(xs, threshold, initialModule) <= acks
    ensures var r := Feed(xs, threshold, initialModule, acks);
      && !r.stalled
      && r.requests == Changes(xs, threshold, initialModule)
      && r.acksRead == |r.requests|
      && r.adopted == LastClass(xs, threshold, initialModule)
      && |r.outputs| == |xs|
      && (forall i :: 0 <= i < |xs| ==> r.outputs[i] == xs[i] + Increment(Class(xs[i], threshold)))
    decreases |xs|
  {
    if |xs| > 0 {
      var p := xs[..|xs| - 1];
      var x := xs[|xs| - 1];
      EchoRun(p, threshold, initialModule, acks);
      var c := Feed(p, threshold, initialModule, acks);
      var need := Class(x, threshold);
      assert Changes(xs, threshold, initialModule) == if c.adopted == need then c.requests else c.requests + [need];
      EchoAdvance(c, x, threshold, acks);
      var r := Feed(xs, threshold, initialModule, acks);
      assert r == Step(c, x, threshold, acks);
      forall i | 0 <= i < |xs|
        ensures r.outputs[i] == xs[i] + Increment(Class(xs[i], threshold))
      {
        if i < |p| {
          assert xs[i] == p[i];
        }
      }
    }
  }

  /**
   * One step of such a run: when a request is due, the next unread
   * acknowledgment is the class requested, and the producer adopts it and
   * writes the element transformed by that class.
   */
  lemma EchoAdvance(c: Cursor, x: int, threshold: int, acks: seq<int>)
    requires !c.stalled && c.acksRead == |c.requests|
    requires c.adopted != Class(x, threshold) ==> c.requests + [Class(x, threshold)] <= acks
    ensures var r, need := Step(c, x, threshold, acks), Class(x, threshold);
      && !r.stalled && r.adopted == need && r.acksRead == |r.requests|
      && r.requests == (if c.adopted != need then c.requests + [need] else c.requests)
      && r.outputs == c.outputs + [x + Increment(need)]
  {
    var need := Class(x, threshold);
    if c.adopted != need {
      assert acks[c.acksRead] == (c.requests + [need])[c.acksRead];
    }
  }

  /** In such a run the module adopted once element i is processed is the class of element i. */
  lemma EchoAdopted(xs: seq<int>, i: nat, threshold: int, initialModule: int)
    requires i < |xs|
    ensures Feed(xs[..i + 1], threshold, initialModule, Changes(xs, threshold, initialModule)).adopted == Class(xs[i], threshold)
  {
    ChangesPrefix(xs, i + 1, threshold, initialModule);
    EchoRun(xs[..i + 1], threshold, initialModule, Changes(xs, threshold, initialModule));
  }

  /** The same run, with the sentinel: it is the class changes, then 0. */
  lemma EchoProduce(xs: seq<int>, threshold: int, initialModule: int)
    ensures var r := Produce(xs, threshold, initialModule, Changes(xs, threshold, initialModule));
      && r == Feed(xs, threshold, initialModule, Changes(xs, threshold, initialModule)).(requests := r.requests)
      && !r.stalled
      && r.requests == Changes(xs, threshold, initialModule) + [0]
      && r.adopted == LastClass(xs, threshold, initialModule)
      && |r.outputs| == |xs|
      && (forall i :: 0 <= i < |xs| ==> r.outputs[i] == xs[i] + Increment(Class(xs[i], threshold)))
  {
    EchoRun(xs, threshold, initialModule, Changes(xs, threshold, initialModule));
  }

  /**
   * One element of such a run: the producer has not blocked, and it
   * processes element i as if the acknowledgment pipe held exactly the
   * class it requests (when it requests one).
   */
  lemma EchoStep(xs: seq<int>, i: nat, threshold: int, initialModule: int, acks: seq<int>)
    requires i < |xs|
    requires Changes(xs, threshold, initialModule) <= acks
    ensures var c, need := Feed(xs[..i], threshold, initialModule, acks), Class(xs[i], threshold);
      && !c.stalled
      && Feed(xs[..i + 1], threshold, initialModule, acks) ==
           Advance(c, xs[i], threshold, if c.adopted != need then Some(need) else None)
  {
    ChangesPrefix(xs, i, threshold, initialModule);
    ChangesPrefix(xs, i + 1, threshold, initialModule);
    EchoRun(xs[..i], threshold, initialModule, acks);
    assert xs[..i + 1][..i] == xs[..i];
    var c := Feed(xs[..i], threshold, initialModule, acks);
    var need := Class(xs[i], threshold);
    if c.adopted != need {
      assert Changes(xs[..i + 1], threshold, initialModule) == c.requests + [need];
    }
  }

  /**
   * The producer loop over the first `numItems` elements of `a`, writing to
   * the output and request pipes and reading the acknowledgment pipe.
   * `blocked` reports an acknowledgment read that would wait forever.
   */
  method PrSrc(a: array<int>, numItems: nat, threshold: int, initialModule: int,
               dataPipe: Pipe, requestPipe: Pipe, ackPipe: Pipe) returns (blocked: bool)
    requires numItems <= a.Length
    requires dataPipe != requestPipe && dataPipe != ackPipe && requestPipe != ackPipe
    modifies dataPipe, requestPipe, ackPipe
    ensures var r := Produce(a[..numItems], threshold, initialModule, old(ackPipe.items));
      && blocked == r.stalled
      && dataPipe.items == old(dataPipe.items) + r.outputs
      && requestPipe.items == old(requestPipe.items) + r.requests
      && r.acksRead <= |old(ackPipe.items)|
      && ackPipe.items == old(ackPipe.items)[r.acksRead..]
  {
    ghost var acks := ackPipe.items;
    ghost var xs := a[..numItems];
    ghost var c := Start(initialModule);
    var writedata := 0;
    var currentModule := initialModule;
    var i := 0;
    while i < numItems
      invariant 0 <= i <= numItems
      invariant c == Feed(xs[..i], threshold, initialModule, acks)
      invariant !c.stalled && c.adopted == currentModule && c.writedata == writedata
      invariant c.acksRead <= |acks| && ackPipe.items == acks[c.acksRead..]
      invariant dataPipe.items == old(dataPipe.items) + c.outputs
      invariant requestPipe.items == old(requestPipe.items) + c.requests
    {
      var readdata := a[i];
      assert xs[..i + 1][..i] == xs[..i];
      ghost var next := Step(c, readdata, threshold, acks);
      assert next == Feed(xs[..i + 1], threshold, initialModule, acks);
      var stuck;
      currentModule, writedata, stuck := Iteration(readdata, threshold, currentModule, writedata,
                                                   dataPipe, requestPipe, ackPipe,
                                                   c, acks, old(dataPipe.items), old(requestPipe.items));
      if stuck {
        FeedPrefix(xs, i + 1, threshold, initialModule, acks);
        assert Produce(xs, threshold, initialModule, acks) == next;
        blocked := true;
        return;
      }
      c := next;
      i := i + 1;
    }
    assert xs[..i] == xs;
    assert Produce(xs, threshold, initialModule, acks) == c.(requests := c.requests + [0]);
    // the loop leaves i == numItems, so the sentinel is always written
    if i >= numItems {
      requestPipe.Write(0);
    }
    assert requestPipe.items == old(requestPipe.items) + (c.requests + [0]);
    blocked := false;
  }

  /**
   * The body of the producer loop for element `readdata`: the request and
   * acknowledgment when the element needs the other module, then the value
   * written to the output pipe. `c` is the state before the element, `acks`
   * the acknowledgments the pipe will deliver, and `dataBase` and
   * `requestBase` what the two pipes held before the loop.
   */
  method Iteration(readdata: int, threshold: int, currentModule: int, writedata: int,
                   dataPipe: Pipe, requestPipe: Pipe, ackPipe: Pipe,
                   ghost c: Cursor, ghost acks: seq<int>, ghost dataBase: seq<int>, ghost requestBase: seq<int>)
    returns (currentModule': int, writedata': int, stuck: bool)
    requires !c.stalled && c.adopted == currentModule && c.writedata == writedata
    requires c.acksRead <= |acks| && ackPipe.items == acks[c.acksRead..]
    requires dataPipe.items == dataBase + c.outputs && requestPipe.items == requestBase + c.requests
    requires dataPipe != requestPipe && dataPipe != ackPipe && requestPipe != ackPipe
    modifies dataPipe, requestPipe, ackPipe
    ensures var r := Step(c, readdata, threshold, acks);
      && stuck == r.stalled
      && dataPipe.items == dataBase + r.outputs
      && requestPipe.items == requestBase + r.requests
      && r.acksRead <= |acks| && ackPipe.items == acks[r.acksRead..]
      && (!stuck ==> r.adopted == currentModule' && r.writedata == writedata')
  {
    currentModule', writedata', stuck := currentModule, writedata, false;
    if readdata < threshold {
      if currentModule' != 1 {
        var ack := Request(requestPipe, ackPipe, 1);
        if ack.None? {
          stuck := true;
          return;
        }
        currentModule' := ack.value;
      }
      if currentModule' == 1 {
        writedata' := readdata + 1;
      }
    } else {
      if currentModule' != 2 {
        var ack := Request(requestPipe, ackPipe, 2);
        if ack.None? {
          stuck := true;
          return;
        }
        currentModule' := ack.value;
      }
      if currentModule' == 2 {
        writedata' := readdata + 2;
      }
    }
    dataPipe.Write(writedata');
  }

  /** Writes a request for module `m`, then waits for the acknowledgment. */
  method Request(requestPipe: Pipe, ackPipe: Pipe, m: int) returns (ack: Option<int>)
    requires requestPipe != ackPipe
    modifies requestPipe, ackPipe
    ensures requestPipe.items == old(requestPipe.items) + [m]
    ensures old(ackPipe.items) == [] ==> ack == None && ackPipe.items == []
    ensures old(ackPipe.items) != [] ==> ack == Some(old(ackPipe.items)[0]) && ackPipe.items == old(ackPipe.items)[1..]
  {
    requestPipe.Write(m);
    ack := ackPipe.Read();
  }

  /** The request monitor: takes one request from the request pipe into slot 0 of `buf`. */
  method PrRequestKernel(requestPipe: Pipe, buf: array<int>) returns (served: bool)
    requires buf.Length >= 1
    modifies requestPipe, buf
    ensures served <==> old(requestPipe.items) != []
    ensures served ==> buf[0] == old(requestPipe.items)[0] && requestPipe.items == old(requestPipe.items)[1..]
    ensures !served ==> requestPipe.items == [] && buf[0] == old(buf[0])
    ensures buf[1..] == old(buf[1..])
  {
    var request := requestPipe.Read();
    served := request.Some?;
    if served {
      buf[0] := request.value;
    }
  }

  /** The acknowledgment kernel: forwards `moduleId` unchanged to the acknowledgment pipe. */
  method PrAckKernel(ackPipe: Pipe, moduleId: int)
    modifies ackPipe
    ensures ackPipe.items == old(ackPipe.items) + [moduleId]
  {
    ackPipe.Write(moduleId);
  }
}
