/** The kernel driver as the encoder session sees it: every answer is chosen freely, within what
    V4L2 promises. It hands out only buffers it owns, and writes only to slots it owns. */
module EncoderDevice {
  import opened Nal
  import opened CaptureLedger
  import opened V4l2

  /** The bytes the reported payload range has in its slot. */
  function Snapshot(memory: seq<seq<byte>>, b: CaptureBuffer): seq<byte> {
    if b.index < |memory| && b.dataOffset <= b.bytesUsed <= |memory[b.index]|
    then memory[b.index][b.dataOffset..b.bytesUsed] else []
  }

  class Device {
    var memory: seq<seq<byte>>
    var ownedCapture: set<nat>
    var ownedInputs: set<nat>
    /** How many buffers come out before the driver says EAGAIN; renewed whenever it does. */
    var ready: nat
    ghost var given: seq<Given>
    /** The last answer on the queue was that it has nothing. */
    ghost var captureEmpty: bool
    ghost var inputEmpty: bool

    constructor ()
      ensures memory == [] && ownedCapture == {} && ownedInputs == {} && given == []
    {
      memory, ownedCapture, ownedInputs, ready, given := [], {}, {}, 0, [];
      captureEmpty, inputEmpty := false, false;
    }

    /** The hardware may write to the slots the kernel owns at any time. */
    method HardwareWrites()
      modifies this`memory
      ensures WritesOnly(old(memory), memory, ownedCapture)
    {
      var m: seq<seq<byte>> := *;
      if |m| == |memory|
        && forall i :: 0 <= i < |m| ==> |m[i]| == |memory[i]| && (i !in ownedCapture ==> m[i] == memory[i]) {
        memory := m;
      }
    }

    method DequeueCapture() returns (r: Dequeue<CaptureBuffer>)
      modifies this`memory, this`ownedCapture, this`ready, this`given, this`captureEmpty
      ensures captureEmpty == (r.Again? || r.Pipe?)
      ensures WritesOnly(old(memory), memory, old(ownedCapture))
      ensures match r
        case Buffer(b) =>
          && (b.index in old(ownedCapture) || b.index >= |memory|)
          && ownedCapture == old(ownedCapture) - {b.index}
          && given == old(given) + [Given(b, Snapshot(memory, b))]
          && ready < old(ready)
        case _ => ownedCapture == old(ownedCapture) && given == old(given)
    {
      HardwareWrites();
      var b: CaptureBuffer := *;
      if ready > 0 && (b.index in ownedCapture || b.index >= |memory|) {
        ownedCapture := ownedCapture - {b.index};
        given := given + [Given(b, Snapshot(memory, b))];
        ready := ready - 1;
        captureEmpty := false;
        return Buffer(b);
      }
      ready := *;
      var pipe: bool, fails: bool := *, *;
      captureEmpty := !fails;
      return if fails then Failed else if pipe then Pipe else Again;
    }

    method QueueCapture(index: nat) returns (ok: bool)
      modifies this`memory, this`ownedCapture
      ensures ownedCapture == if ok then old(ownedCapture) + {index} else old(ownedCapture)
      ensures WritesOnly(old(memory), memory, ownedCapture)
    {
      ok := *;
      if ok {
        ownedCapture := ownedCapture + {index};
      }
      HardwareWrites();
    }

    method DequeueInput() returns (r: Dequeue<nat>)
      modifies this`ownedInputs, this`ready, this`inputEmpty
      ensures inputEmpty == r.Again?
      ensures match r
        case Buffer(i) => i in old(ownedInputs) && ownedInputs == old(ownedInputs) - {i}
        case _ => ownedInputs == old(ownedInputs)
      ensures r.Buffer? ==> ready < old(ready)
    {
      var i: nat := *;
      if ready > 0 && i in ownedInputs {
        ownedInputs, ready := ownedInputs - {i}, ready - 1;
        inputEmpty := false;
        return Buffer(i);
      }
      ready := *;
      var fails: bool := *;
      inputEmpty := !fails;
      return if fails then Failed else Again;
    }

    method QueueInput(index: nat) returns (ok: bool)
      modifies this`ownedInputs
      ensures ownedInputs == if ok then old(ownedInputs) + {index} else old(ownedInputs)
    {
      ok := *;
      if ok {
        ownedInputs := ownedInputs + {index};
      }
    }

    /** `VIDIOC_REQBUFS` on the capture queue followed by mapping: a new, unowned set of slots. */
    method AllocateCapture() returns (count: nat)
      modifies this`memory, this`ownedCapture
      ensures ownedCapture == {} && |memory| == count
    {
      memory := *;
      ownedCapture := {};
      count := |memory|;
    }

    method AllocateInputs() returns (count: nat)
      modifies this`ownedInputs
      ensures ownedInputs == {}
    {
      count := *;
      ownedInputs := {};
    }

    /** Closing the descriptor takes every buffer back. */
    method Release()
      modifies this
      ensures memory == [] && ownedCapture == {} && ownedInputs == {} && given == []
    {
      memory, ownedCapture, ownedInputs, given := [], {}, {}, [];
    }
  }
}
