/** The kernel driver as the decoder session sees it. Unlike the encoder's, it is trusted with
    nothing: it may hand out any index, queued or not, in range or not. */
module DecoderDevice {
  import opened V4l2

  /** A dequeued capture buffer. */
  datatype Decoded = Decoded(index: nat, frameIndex: nat, bytesUsed: nat, last: bool)

  class Device {
    /** How many answers come before the driver says EAGAIN; renewed whenever it does. */
    var ready: nat
    ghost var given: seq<Decoded>
    /** The last answer on the queue was that it has nothing. */
    ghost var captureEmpty: bool
    ghost var inputEmpty: bool
    ghost var eventsEmpty: bool
    /** How often the resolution changed. */
    ghost var changes: nat

    constructor ()
      ensures given == []
    {
      ready, given, captureEmpty, inputEmpty, eventsEmpty, changes := 0, [], false, false, false, 0;
    }

    method DequeueCapture() returns (r: Dequeue<Decoded>)
      modifies this`ready, this`given, this`captureEmpty
      ensures r.Buffer? ==> ready < old(ready)
      ensures given == if r.Buffer? then old(given) + [r.buffer] else old(given)
      ensures captureEmpty == (r.Again? || r.Pipe?)
    {
      var b: Decoded := *;
      if ready > 0 {
        ready := ready - 1;
        given, captureEmpty := given + [b], false;
        return Buffer(b);
      }
      ready := *;
      var pipe: bool, fails: bool := *, *;
      captureEmpty := !fails;
      return if fails then Failed else if pipe then Pipe else Again;
    }

    method DequeueInput() returns (r: Dequeue<nat>)
      modifies this`ready, this`inputEmpty
      ensures r.Buffer? ==> ready < old(ready)
      ensures inputEmpty == r.Again?
    {
      var i: nat := *;
      if ready > 0 {
        ready := ready - 1;
        inputEmpty := false;
        return Buffer(i);
      }
      ready := *;
      var fails: bool := *;
      inputEmpty := !fails;
      return if fails then Failed else Again;
    }

    /** An event, with whether it is a change of the resolution. */
    method DequeueEvent() returns (r: Dequeue<bool>)
      modifies this`ready, this`eventsEmpty, this`changes
      ensures r.Buffer? ==> ready < old(ready)
      ensures eventsEmpty == r.Again?
      ensures changes == old(changes) + if r.Buffer? && r.buffer then 1 else 0
    {
      var resolutionChanged: bool := *;
      if ready > 0 {
        ready := ready - 1;
        eventsEmpty := false;
        changes := changes + if resolutionChanged then 1 else 0;
        return Buffer(resolutionChanged);
      }
      ready := *;
      var fails: bool := *;
      eventsEmpty := !fails;
      return if fails then Failed else Again;
    }

    /** Closing the descriptor takes every buffer back. */
    method Release()
      modifies this`given
      ensures given == []
    {
      given := [];
    }
  }
}
