# Live partial reconfiguration demo: producer and controller

This project models the two pieces of sequential logic in a demo of live
partial reconfiguration of an FPGA slot.

Slot 0 runs a producer kernel, `pr_src`. It walks an input array and decides
for each element whether it needs sink module 1 (the element is below the
threshold) or sink module 2 (it is not). When that differs from the module
it currently assumes, it writes a reconfiguration request to the request
pipe. It then waits on the acknowledgment pipe and adopts the module id it
reads. For every element it writes one value to the output pipe, and at the
end it writes the end-of-requests sentinel 0.

Slot 1 hosts one sink kernel at a time. The host program runs a controller
loop. A request monitor kernel (`pr_request_kernel`) copies one request into
a one-cell buffer. For a non-zero request the controller does the following:

1. It stops the sink of the current module.
2. It reads the checkpoint the stopped sink left in the status cell.
3. It submits the requested sink to resume at that checkpoint.
4. It waits until that sink runs, then makes the request the current module.
5. It re-arms the monitor and acknowledges through `pr_ack_kernel`.

When the producer has finished, the sink of the final module is stopped.
The host also fills the input and checks the sink's results.

The project has five modules:

- **`Pipes`** (`pipes.dfy`): the FIFO pipes.
  - A pipe is the queue of values written and not yet read.
  - A read from an empty pipe blocks forever on the device. It is reported as `None`.
- **`Producer`** (`producer.dfy`): the producer kernel and the two mailbox kernels.
  - `Advance`, `Feed` and `Produce` are its specification: a cursor advanced one element at a time. The acknowledgments are an input.
  - `Changes` is an independent reference definition of the class changes of the input.
  - `PrSrc` is the loop itself, over real pipe objects. It is proved equal to `Produce`.
- **`Controller`** (`controller.dfy`): the controller as a `Host` class.
  - The request and status cells are one-element arrays.
  - Every stop, launch, monitor re-arm and acknowledgment the controller issues is kept in an event log.
  - The sink handle is replayed from that log.
  - The class invariant says two things: the handle is the replay of the log, and no sink was ever submitted while another one was still running.
- **`Harness`** (`harness.dfy`): the input fill and the result checker.
- **`Pipeline`** (`pipeline.dfy`): the producer and the controller composed in lock step.
  - The producer blocks on the acknowledgment after each request.
  - The controller acts only once a request has arrived.
  - So each handshake has one order: request, monitor, checkpoint, serve, acknowledgment.

### Behaviour of the code that a reader might not expect

- **Unknown request ids.**
  - A controller could be expected to reject a request for an unknown module id and keep the active sink running.
  - The code first stops the current sink. It submits no new one, and then polls the old handle for `running` forever (main.cpp:179-209).
  - `Controller.Host.Serve` returns `Wedged` in this case, with no sink running.
- **Repeated requests.**
  - A request for the module that is already current could be expected to be acknowledged without touching the sink.
  - The code stops the running sink and submits the same sink again at the checkpoint, then acknowledges (main.cpp:175-203): `Controller.ResponseRepeat`.
  - The producer never sends such a request, because it asks only when an element's class differs from the module it adopted, and in lock step that module is the controller's current one (`Pipeline.Element`).
- **Unrequested acknowledgments.**
  - The producer could be expected to treat an acknowledgment for a module it did not request as a protocol error.
  - The code adopts whatever id arrives (slot0/pr_src.cpp:91,100), and so does `Producer.Advance`.
- **The host's own test input.**
  - The input is 1 at even indices and -1 at odd ones, with threshold 0 and initial module 1.
  - One might read this input as staying on module 1.
  - Under the code, the element at index 0 already needs module 2, and every later element changes class. So a reconfiguration is requested at every element, alternating 2, 1, 2, 1, … (`Pipeline.FixtureChanges`).

## Model

| member | source | states |
|---|---|---|
| Pipes.Pipe.Write | slot0/pr_src.cpp:65-66 | a write appends the value at the tail of the pipe |
| Pipes.Pipe.Read | slot0/pr_src.cpp:65-66 | a read removes and returns the oldest value; on an empty pipe it returns `None` and changes nothing |
| Producer.Advance | slot0/pr_src.cpp:84-107 | one iteration on element x: a request is written exactly when x's class differs from the adopted module, and it is x's class; otherwise there is no acknowledgment traffic; after a request the acknowledged id is adopted, or the producer blocks when none arrives; exactly one output per element unless blocked; the output is x+1 or x+2 when the adopted module matches x's class, and otherwise the previous value |
| Producer.Class | slot0/pr_src.cpp:88-98 | the class of an element is 1 exactly when it is below the threshold, and 2 otherwise |
| Producer.Step | slot0/pr_src.cpp:86-107 | one iteration takes the next unread acknowledgment, if there is one, as the reply to a request (definition; its properties are stated by `FeedInvariant`, `FeedPrefix` and `Iteration`) |
| Producer.Feed | slot0/pr_src.cpp:84-110 | the loop over the input, element by element from the initial module (definition; properties in `FeedInvariant`, `FeedPrefix`, `OutputOfElement`, `EchoRun`) |
| Producer.Produce | slot0/pr_src.cpp:84-115 | the loop followed by the sentinel 0, which a blocked loop never reaches (definition; properties in `SentinelOnce`, `EchoProduce`, `PrSrc`) |
| Producer.Changes | slot0/pr_src.cpp:88-101 | reference for the class changes counted from the initial module: entries are 1 or 2, the first differs from the initial module, consecutive entries differ, there are at most as many as elements, and the last is the class of the last element |
| Producer.ChangesPrefix | slot0/pr_src.cpp:84-101 | the class changes of a prefix of the input are a prefix of those of the whole input |
| Producer.FeedInvariant | slot0/pr_src.cpp:79-107 | after any prefix, whatever is acknowledged: every request is 1 or 2; each request except a pending one consumed one acknowledgment; the module is the last acknowledgment read, or the initial module; one output per element processed unless blocked |
| Producer.FeedPrefix | slot0/pr_src.cpp:84-110 | processing more input only extends the outputs, requests and acknowledgments read; a blocked producer stays blocked |
| Producer.OutputOfElement | slot0/pr_src.cpp:79-107 | output k is written while processing element k, in index order; it is element k plus 1 or 2 when the module adopted then matches its class, and otherwise the previous output (0 for the first) |
| Producer.LastOutput | slot0/pr_src.cpp:79-107 | until it blocks, `writedata` is the value written last, or 0 before any |
| Producer.SentinelOnce | slot0/pr_src.cpp:112-115 | a run that finishes writes exactly one 0 request, as its last; a blocked run writes none |
| Producer.EchoRun | slot0/pr_src.cpp:84-107 | with every request acknowledged with the id asked for, the producer never blocks; its requests are exactly the class changes; its module is the class of the last element; every output is its element transformed by the element's own class, so no stale value is written |
| Producer.EchoAdvance | slot0/pr_src.cpp:88-107 | one step of such a run adopts the element's class and writes the element transformed by it |
| Producer.EchoAdopted | slot0/pr_src.cpp:88-101 | in such a run the module adopted after element i is the class of element i |
| Producer.EchoProduce | slot0/pr_src.cpp:84-115 | such a run's requests are the class changes followed by the sentinel 0 |
| Producer.EchoStep | slot0/pr_src.cpp:84-107 | in such a run, element i is processed as if the acknowledgment pipe held exactly the class it requests |
| Producer.PrSrc | slot0/pr_src.cpp:70-119 | the loop over the first `numItems` elements writes exactly `Produce`'s outputs to the output pipe and its requests (with the sentinel) to the request pipe, consumes exactly the acknowledgments it read, and reports blocking exactly when `Produce` blocks |
| Producer.Iteration | slot0/pr_src.cpp:86-107 | the loop body for one element has the effect on the three pipes and on the module and value that `Step` describes |
| Producer.Request | slot0/pr_src.cpp:89-92 | a request for module m is written, then one acknowledgment is taken if there is one |
| Producer.PrRequestKernel | slot0/pr_src.cpp:121-135 | the monitor moves the oldest request into cell 0 of the buffer and leaves the rest of the buffer as it was; with no request it changes nothing |
| Producer.PrAckKernel | slot0/pr_src.cpp:154-164 | the acknowledgment kernel forwards `module_id` unchanged to the acknowledgment pipe |
| Controller.StopFor | main.cpp:179-186 | the stop goes to sink 1 for module 1 and to sink 2 for module 2; for any other module there is none |
| Controller.Apply | main.cpp:179-203 | a launch installs the named sink at its checkpoint, running; a stop ends the named sink only if it is the one running, and otherwise changes nothing. This is an assumption about the sink and stop kernels, which are not part of this model (definition; properties in `StopsRunningSink`, `InstallsSink`, `ResponseSlot`) |
| Controller.Response | main.cpp:174-221 | what one pass of the loop submits for a request, for a current module of 1 or 2 (definition; properties in `ResponseShape`, `ResponseRepeat`, `ResponseSlot`, `ResponseAcks`, `Host.Serve`) |
| Controller.ResponseShape | main.cpp:174-221 | request 0 gives no event; every stop is for the current module and comes first; every launch is the requested sink at the checkpoint; for requests 1 and 2 the launch is followed by the monitor re-arm and then the acknowledgment of the request; any other non-zero id launches nothing and acknowledges nothing |
| Controller.ResponseRepeat | main.cpp:175-203 | a request for the module already current stops that sink, submits it again at the checkpoint, re-arms and acknowledges: there is no shortcut for a repeated request |
| Controller.ResponseSlot | main.cpp:179-209 | if the running sink is the current module's, serving a request never submits a sink while another runs; after request 1 or 2 the requested sink runs from the checkpoint; request 0 leaves the slot as it was; any other id leaves no sink running |
| Controller.ResponseLog | main.cpp:168-223 | the same on the whole log: appending a response keeps the log exclusive, and the replayed handle is the one `ResponseSlot` gives |
| Controller.StopsRunningSink | main.cpp:179-189 | the stop for the current module leaves no sink running |
| Controller.InstallsSink | main.cpp:196-220 | on a stopped slot, launching the requested sink, re-arming and acknowledging leaves that sink running at the checkpoint |
| Controller.ResponseAcks | main.cpp:214-220 | only requests 1 and 2 are acknowledged, each once, with its own id |
| Controller.Host.constructor | main.cpp:115-119 | both cells start at 0, the current module is 1, and sink 1 is the one submitted, to resume at 0 (main.cpp:161) |
| Controller.Host.Serve | main.cpp:168-223 | one pass of the loop appends exactly `Response(current, request, checkpoint)` to the log and keeps the invariant. Request 0 changes nothing. Requests 1 and 2 make the request the current module, leave the requested sink running at the checkpoint, and put the request on the acknowledgment pipe. Any other id acknowledges nothing, leaves no sink running and wedges the controller |
| Controller.Host.StopCurrent | main.cpp:179-186 | the stop for the current module's sink is logged, and the handle stops running |
| Controller.Host.LaunchRequested | main.cpp:196-203 | request 1 or 2 logs the launch of that sink at the checkpoint, which then runs; any other id logs nothing |
| Controller.Host.Teardown | main.cpp:227-234 | the sink of the final current module is stopped, no sink runs afterwards, and the host is left valid in its finished phase |
| Harness.FillInputs | main.cpp:123-131 | the source memory holds 1 at even and -1 at odd indices, and the sink memory is all 0 |
| Harness.Fill | main.cpp:123-129 | the input has one value per element, 1 at even and -1 at odd indices (properties in `FillInputs`, `Pipeline.FixtureChanges`) |
| Harness.Expected | main.cpp:244-249 | the checker expects element + 1 below the threshold and element + 3 otherwise (definition; used by `MismatchesCount`, `CheckSink`) |
| Harness.Mismatches | main.cpp:241-253 | the failure count is at most the number of elements (properties in `MismatchesCount`, `MismatchesZero`, `CheckSink`) |
| Harness.MismatchesCount | main.cpp:241-253 | the failure count is the number of indices whose sink value differs from the expected value (+1 below the threshold, +3 otherwise) |
| Harness.MismatchesZero | main.cpp:241-263 | the count is 0 exactly when every index holds its expected value |
| Harness.CheckSink | main.cpp:241-263 | the checker's `fail` is the mismatch count, and it reports a pass exactly when every sink value is the expected one |
| Pipeline.Handshake | main.cpp:171-221 | one request for module 1 or 2, served in lock step: the acknowledgment read back is the module requested, and the requested sink runs at the checkpoint |
| Pipeline.Element | slot0/pr_src.cpp:86-107 | one element in lock step: the producer advances as `Advance` does, with an acknowledgment equal to the element's class when it asks; afterwards producer, controller and running sink all agree on that class |
| Pipeline.Deliver | slot0/pr_src.cpp:84-107 | element i in lock step advances the producer to its state after the first i+1 elements of a run acknowledged with the class changes, and the controller has acknowledged exactly the requests made |
| Pipeline.Finish | main.cpp:225-234 | the sentinel reaches the monitor and is ignored; the final module's sink is stopped, and the log stays exclusive with no sink running |
| Pipeline.Stream | main.cpp:164-223 | the producer loop in lock step with the controller acknowledges exactly the producer's requests, and the sink running when output i is written is the class of element i |
| Pipeline.LockStep | main.cpp:161-234 | the whole run from the initial state (module 1 on both sides, sink 1 at 0). The producer's traffic is `Produce` with the class changes as acknowledgments. Its requests are the class changes followed by 0. Every output is its element transformed by its own class. The sink running at each output is that class's. The controller acknowledged exactly the class changes and ends on the last element's class. No two sinks ever overlap, and none runs at the end |
| Pipeline.FixtureChanges | main.cpp:119-131 | on the host's own input, a change is requested at every element: 2, 1, 2, 1, … |
| Pipeline.FixtureChange | main.cpp:123-129 | on that input, each further element changes the class |
| Pipeline.FixtureRun | main.cpp:119-131 | on that input, the producer writes 3 at even and 0 at odd indices and requests 2, 1, 2, …, then 0; the checker expects 4 and 0 (main.cpp:245-248) |

## Left out

- Loading of the slot libraries with `dlopen`/`dlsym` (main.cpp:96-107). These are foreign calls; the four sink entry points are modelled as the `Stop` and `Launch` events.
- SYCL queues, devices, buffers and `host_accessor` scoping. Buffers are plain arrays, and the request and status cells are one-element arrays.
- Concurrency, and the blocking mechanics of the pipes and of event waits:
  - The wait on the request monitor, the wait on the stopped sink and the 100 ms polling with `sleep_for` (main.cpp:168-171,189,206-209) are not modelled as waits.
  - The producer and the controller are composed in lock step instead, which is the only order the handshake allows.
  - A blocking read that never returns is modelled as `None`, a stalled producer, or a `Wedged` reply.
- The outer poll of the producer's completion status (main.cpp:168). The model serves exactly the producer's requests and then the sentinel.
- The sink kernels (`pr_sink1`, `pr_sink2`, their stop kernels) are not part of this model:
  - the checkpoint each leaves in the status cell is the parameter `resume`;
  - what they write to the sink memory is not modelled.
- End-to-end output equality is not stated. The producer adds 2 under module 2 (slot0/pr_src.cpp:104), and the checker expects 3 (main.cpp:248). The unseen sink may account for the difference. `Pipeline.FixtureRun` states both values side by side.
- Producer.Advance: the source's `long` arithmetic on `readdata + 1` and `readdata + 2` is modelled on unbounded integers, so 64-bit overflow at the maximum value is not captured.
- Harness.CheckSink: the `int fail` counter and the expected values are unbounded; the model cannot overflow them.
- The asynchronous exception handler, `terminate`, and all console output.
- Timeouts, retry budgets and rejection of unknown module ids: the code has none.
