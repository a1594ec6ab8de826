/**
 * The FIFO pipes that connect the kernels of the reconfiguration demo
 * (the request pipe, the acknowledgment pipe and the data output pipe).
 *
 * A pipe is modelled as the queue of values written and not yet read.
 * A blocking read on an empty pipe never returns in the device code; the
 * model's `Read` reports that case as `None` so that callers can say what
 * happens when nothing ever arrives.
 */
module Pipes {

  datatype Option<T> = None | Some(value: T)

  class Pipe {
    /** Values written and not yet read, oldest first. */
    var items: seq<int>

    constructor ()
      ensures items == []
    {
      items := [];
    }

    /** Appends one value at the tail. */
    method Write(v: int)
      modifies this
      ensures items == old(items) + [v]
    {
      items := items + [v];
    }

    /** Removes the value at the head, or reports that a blocking read would wait forever. */
    method Read() returns (v: Option<int>)
      modifies this
      ensures old(items) == [] ==> v == None && items == []
      ensures old(items) != [] ==> v == Some(old(items)[0]) && items == old(items)[1..]
    {
      if items == [] {
        v := None;
      } else {
        v := Some(items[0]);
        items := items[1..];
      }
    }
  }
}
