/** The V4L2 decoder session: a capture setup that block pools may interrupt at any slot, the
    zero-copy slots that circulate afterwards, and the frames handed out. */
module DecoderSession {
  import opened Wrappers
  import opened Nal
  import opened V4l2
  import opened DecoderDevice

  const CAPTURE_SLACK: nat := 4
  const DEFAULT_MINIMUM: nat := 4

  datatype Layout = Layout(linearNv12: bool, stride: nat, totalSize: nat)

  /** A graphic block and what importing it yields. */
  datatype Block = Block(id: nat, layout: Option<Layout>)

  datatype Geometry = Geometry(width: nat, height: nat, stride: nat, size: nat, visible: Visible)

  datatype Visible = Visible(width: nat, height: nat, left: nat, top: nat)

  const NO_GEOMETRY := Geometry(0, 0, 0, 0, Visible(0, 0, 0, 0))

  datatype Slot = Slot(block: Option<Block>, queued: bool)

  const FREE := Slot(None, false)

  datatype Frame = Frame(block: Option<Block>, frameIndex: nat, visible: Visible, endOfStream: bool)

  /** What the session took in: a buffer of the driver, or the end of a stream without input. */
  datatype Taken = Real(b: Decoded, block: Block, visible: Visible) | Synthetic

  datatype Packet = Packet(data: seq<byte>, frameIndex: nat)

  predicate Matches(block: Block, g: Geometry) {
    block.layout.Some? && block.layout.value.linearNv12
    && block.layout.value.stride == g.stride && block.layout.value.totalSize >= g.size
  }

  /** The frame an entry is published as. An empty buffer is published only when it is the last one. */
  function FrameOf(t: Taken): Option<Frame> {
    match t
    case Synthetic => Some(Frame(None, 0, Visible(0, 0, 0, 0), true))
    case Real(b, block, visible) =>
      if b.bytesUsed != 0 || b.last then Some(Frame(Some(block), b.frameIndex, visible, b.last)) else None
  }

  function Frames(log: seq<Taken>): seq<Frame> {
    if log == [] then []
    else
      var before := Frames(log[..|log| - 1]);
      match FrameOf(log[|log| - 1])
      case Some(f) => before + [f]
      case None => before
  }

  /** The driver's buffers in a log. */
  function Buffers(log: seq<Taken>): seq<Decoded> {
    if log == [] then []
    else
      var last := log[|log| - 1];
      Buffers(log[..|log| - 1]) + if last.Real? then [last.b] else []
  }

  /** The entries that are marked. */
  function Select(given: seq<Decoded>, taken: seq<bool>): seq<Decoded>
    requires |given| == |taken|
  {
    if given == [] then []
    else
      Select(given[..|given| - 1], taken[..|taken| - 1]) + if taken[|taken| - 1] then [given[|given| - 1]] else []
  }

  lemma TakeOne(log: seq<Taken>, given: seq<Decoded>, taken: seq<bool>, t: Taken)
    requires |given| == |taken| && Buffers(log) == Select(given, taken)
    ensures t.Real? ==> Buffers(log + [t]) == Select(given + [t.b], taken + [true])
    ensures t.Synthetic? ==> Buffers(log + [t]) == Select(given, taken)
  {
    assert (log + [t])[..|log|] == log;
    if t.Real? {
      assert (given + [t.b])[..|given|] == given && (taken + [true])[..|taken|] == taken;
    } else {
      assert Buffers(log) + [] == Buffers(log);
    }
  }

  lemma RefuseOne(given: seq<Decoded>, taken: seq<bool>, b: Decoded)
    requires |given| == |taken|
    ensures Select(given + [b], taken + [false]) == Select(given, taken)
  {
    assert (given + [b])[..|given|] == given && (taken + [false])[..|taken|] == taken;
    assert Select(given, taken) + [] == Select(given, taken);
  }

  /** Without a refusal, everything was taken. */
  lemma {:induction false} SelectAll(given: seq<Decoded>, taken: seq<bool>)
    requires |given| == |taken| && forall k :: 0 <= k < |taken| ==> taken[k]
    ensures Select(given, taken) == given
    decreases |given|
  {
    if given != [] {
      SelectAll(given[..|given| - 1], taken[..|taken| - 1]);
    }
  }

  lemma FramesSnoc(log: seq<Taken>, t: Taken)
    ensures Frames(log + [t]) == Frames(log) + match FrameOf(t) { case Some(f) => [f] case None => [] }
  {
    assert (log + [t])[..|log|] == log;
  }

  // ----- invariants -----

  /** A slot is queued exactly while its block is held, and the block fits the geometry. */
  ghost predicate SlotsHeld(slots: seq<Slot>, g: Geometry) {
    forall i :: 0 <= i < |slots| ==>
      (slots[i].queued <==> slots[i].block.Some?) && (slots[i].queued ==> Matches(slots[i].block.value, g))
  }

  ghost predicate Distinct(queues: seq<nat>) {
    forall i, j :: 0 <= i < j < |queues| ==> queues[i] != queues[j]
  }

  /** `queues` are the slots queued since they were allocated and before streaming started: each
      at most once, and all of them when it has started. */
  ghost predicate SetupOnce(slots: seq<Slot>, configured: bool, queues: seq<nat>) {
    && Distinct(queues)
    && (forall i :: i in queues ==> i < |slots|)
    && forall i :: 0 <= i < |slots| ==> (configured || slots[i].queued <==> i in queues)
  }

  /** While streaming, a slot is queued, lost to a failed refill, or retired by the last buffer. */
  ghost predicate Accounted(slots: seq<Slot>, configured: bool, lost: set<nat>, retired: set<nat>) {
    && lost !! retired && (!configured ==> lost == retired == {})
    && (forall i :: i in lost || i in retired ==> i < |slots|)
    && forall i :: 0 <= i < |slots| && configured ==> (slots[i].queued <==> i !in lost && i !in retired)
  }

  /** A setup is pending or done, never both. Slots exist exactly then, except when a negotiation
      failed while a setup was pending: that one goes on with no slots at all. */
  predicate Phase(slots: seq<Slot>, configured: bool, streaming: bool, pending: bool, stale: bool) {
    && configured == streaming && !(configured && pending)
    && (pending || configured ==> (slots == [] <==> stale))
    && (!pending && !configured ==> slots == [])
  }

  function Queued(slots: seq<Slot>): set<nat> {
    set i | 0 <= i < |slots| && slots[i].queued
  }

  predicate NoneQueued(slots: seq<Slot>) {
    forall i :: 0 <= i < |slots| ==> !slots[i].queued
  }

  predicate AllQueued(slots: seq<Slot>) {
    forall i :: 0 <= i < |slots| ==> slots[i].queued
  }

  /** Whatever was queued still is, with the same block. */
  ghost predicate Resumes(before: seq<Slot>, after: seq<Slot>) {
    |before| == |after| && forall i :: 0 <= i < |before| && before[i].queued ==> after[i] == before[i]
  }

  class Session {
    const device: Device
    var slots: seq<Slot>
    var geometry: Geometry
    var configured: bool
    var streaming: bool
    var setupPending: bool
    var frames: seq<Frame>
    var inputs: seq<bool>
    var inputLengths: seq<nat>
    var codedSize: nat
    var receivedInput: bool
    var draining: bool
    ghost var log: seq<Taken>
    ghost var delivered: seq<Frame>
    ghost var queues: seq<nat>
    ghost var lost: set<nat>
    ghost var retired: set<nat>
    ghost var stale: bool
    ghost var submitted: seq<Packet>
    /** Which of the driver's buffers of this epoch were taken; the others were refused as corrupt. */
    ghost var taken: seq<bool>
    /** A refill was attempted without a pool: the source then dereferences a null pointer. */
    ghost var nullPool: bool
    /** How many capture setups were begun. */
    ghost var setups: nat

    ghost predicate CaptureValid()
      reads this`slots, this`geometry, this`configured, this`streaming, this`setupPending,
            this`queues, this`lost, this`retired, this`stale
    {
      && SlotsHeld(slots, geometry) && SetupOnce(slots, configured, queues)
      && Accounted(slots, configured, lost, retired)
      && Phase(slots, configured, streaming, setupPending, stale)
    }

    ghost predicate FramesValid()
      reads this`frames, this`log, this`delivered
    {
      delivered + frames == Frames(log)
    }

    /** The log is what the driver gave in this epoch, in order, except for what was refused. */
    ghost predicate LogValid()
      reads this`log, this`taken, device`given
    {
      |taken| == |device.given| && Buffers(log) == Select(device.given, taken)
    }

    ghost predicate Valid()
      reads this, device`given
    {
      CaptureValid() && FramesValid() && LogValid() && |inputs| == |inputLengths|
    }

    constructor ()
      ensures Valid() && fresh(device) && !configured && !setupPending && delivered == []
      ensures log == [] && taken == [] && !nullPool
    {
      device := new Device();
      slots, geometry, configured, streaming, setupPending := [], NO_GEOMETRY, false, false, false;
      frames, inputs, inputLengths, codedSize, receivedInput, draining := [], [], [], 0, false, false;
      log, delivered, queues, lost, retired, stale, submitted, setups := [], [], [], {}, {}, false, [], 0;
      taken, nullPool := [], false;
    }

    // ----- capture setup -----

    method ResetDecoderCapture()
      requires CaptureValid()
      modifies this`slots, this`configured, this`streaming, this`queues, this`lost, this`retired, this`stale
      ensures CaptureValid() && slots == [] && !configured && stale == setupPending
    {
      streaming := false;
      slots := [];
      var _ := Succeeds();
      configured := false;
      queues, lost, retired, stale := [], {}, {}, setupPending;
    }

    method BeginDecoderCaptureSetup() returns (s: Status)
      requires CaptureValid()
      modifies this`slots, this`geometry, this`configured, this`streaming, this`setupPending,
               this`queues, this`lost, this`retired, this`stale, this`setups
      ensures CaptureValid() && !configured && setups == old(setups) + 1
      ensures s == OK ==> setupPending && slots != [] && Queued(slots) == {}
      ensures s != OK ==> slots == [] && setupPending == old(setupPending)
      ensures stale <==> s != OK && old(setupPending)
    {
      setups := setups + 1;
      ResetDecoderCapture();
      var negotiated, unsupported := *, *;
      if !negotiated { return if unsupported then Omitted else Corrupted; }
      geometry := *;
      var minimum: nat, reported: nat := DEFAULT_MINIMUM, *;
      if reported > 0 { minimum := reported; }
      var count;
      s, count := RequestBuffers(minimum + CAPTURE_SLACK);
      if s != OK { return; }
      if count < minimum { return NoMemory; }
      slots := seq(count, _ => FREE);
      setupPending := true;
      stale := false;
      s := OK;
    }

    /** Queues one slot with a block that fits. A slot that the stream had lost is back. */
    method QueueDecoderCapture(index: nat, block: Block) returns (s: Status)
      requires CaptureValid() && index < |slots| && !slots[index].queued
      requires (configured && index in lost) || setupPending
      modifies this`slots, this`queues, this`lost
      ensures CaptureValid()
      ensures s == OK ==>
        && Matches(block, geometry) && slots == old(slots)[index := Slot(Some(block), true)]
        && lost == old(lost) - {index} && queues == old(queues) + if configured then [] else [index]
      ensures s != OK ==> slots == old(slots) && lost == old(lost) && queues == old(queues)
    {
      if !Matches(block, geometry) { return Omitted; }
      var accepted := Succeeds();
      if !accepted { return Corrupted; }
      hide Matches;
      if configured {
        RefilledAccounted(slots, geometry, configured, lost, retired, queues, index, block);
        lost := lost - {index};
      } else {
        SetupQueued(slots, geometry, configured, lost, retired, queues, index, block);
        queues := queues + [index];
      }
      slots := slots[index := Slot(Some(block), true)];
      s := OK;
    }

    /** Fetches a block for one slot and queues it. */
    method FetchAndQueue(index: nat, havePool: bool) returns (s: Status)
      requires CaptureValid() && index < |slots| && !slots[index].queued
      requires (configured && index in lost) || setupPending
      modifies this`slots, this`queues, this`lost, this`nullPool
      ensures CaptureValid() && nullPool == (old(nullPool) || !havePool)
      ensures s == OK ==>
        && |slots| == |old(slots)| && slots[index].queued && slots == old(slots)[index := slots[index]]
        && lost == old(lost) - {index} && queues == old(queues) + if configured then [] else [index]
      ensures s != OK ==> slots == old(slots) && lost == old(lost) && queues == old(queues)
    {
      hide SlotsHeld, SetupOnce, Accounted, Phase, Matches;
      if !havePool {
        nullPool := true;
        return Corrupted;
      }
      var fetched: Status, block: Block := *, *;
      if fetched != OK { return fetched; }
      s := QueueDecoderCapture(index, block);
    }

    /** Goes on with a pending setup where the last attempt stopped. */
    method ProgressDecoderCaptureSetup(havePool: bool) returns (s: Status)
      requires CaptureValid()
      modifies this`slots, this`configured, this`streaming, this`setupPending, this`queues, this`lost, this`nullPool
      ensures CaptureValid() && nullPool == old(nullPool) && old(queues) <= queues && Resumes(old(slots), slots)
      ensures !old(setupPending) ==> s == OK && slots == old(slots) && configured == old(configured)
      ensures old(setupPending) && !havePool ==> s == NoInit && slots == old(slots)
      ensures old(setupPending) && s == OK ==> configured && AllQueued(slots)
      ensures old(setupPending) && s != OK ==> setupPending && !configured
      ensures !old(setupPending) || s == OK ==> !setupPending
    {
      if !setupPending { return OK; }
      if !havePool { return NoInit; }
      for index := 0 to |slots|
        invariant CaptureValid() && setupPending && !configured && nullPool == old(nullPool)
        invariant Resumes(old(slots), slots) && old(queues) <= queues
        invariant forall i :: 0 <= i < index ==> slots[i].queued
      {
        if slots[index].queued { continue; }
        hide SlotsHeld, SetupOnce, Accounted;
        s := FetchAndQueue(index, havePool);
        if s != OK { return; }
      }
      s := StartStream();
    }

    /** `VIDIOC_STREAMON` once every slot is queued. */
    method StartStream() returns (s: Status)
      requires CaptureValid() && setupPending && !configured
      requires AllQueued(slots)
      modifies this`configured, this`streaming, this`setupPending
      ensures CaptureValid()
      ensures s == OK ==> configured && !setupPending && AllQueued(slots)
      ensures s != OK ==> setupPending && !configured
    {
      hide SlotsHeld, Matches, Distinct;
      var started := Succeeds();
      if !started { return Corrupted; }
      streaming, setupPending, configured := true, false, true;
      s := OK;
    }

    // ----- streaming -----

    /** The books when the driver hands out slot `b.index`: its frame is pending if it has one, and
        the slot is in no one's hands until it is refilled. */
    method TakeBuffer(b: Decoded)
      requires CaptureValid() && FramesValid() && configured
      requires b.index < |slots| && slots[b.index].block.Some?
      modifies this`slots, this`frames, this`log, this`lost, this`retired
      ensures CaptureValid() && FramesValid()
      ensures slots == old(slots)[b.index := FREE] && old(slots[b.index]).queued
      ensures log == old(log) + [Real(b, old(slots[b.index].block.value), geometry.visible)]
      ensures old(lost) <= lost && old(retired) <= retired
      ensures if b.last then b.index in retired && lost == old(lost)
              else lost == old(lost) + {b.index} && b.index !in old(lost) && retired == old(retired)
    {
      hide Matches, Distinct, Frames;
      var block := slots[b.index].block.value;
      var frame := Frame(Some(block), b.frameIndex, geometry.visible, b.last);
      FramesSnoc(log, Real(b, block, geometry.visible));
      TakenAccounted(slots, geometry, configured, lost, retired, queues, b.index, b.last);
      hide SlotsHeld, SetupOnce, Accounted;
      log := log + [Real(b, block, geometry.visible)];
      slots := slots[b.index := FREE];
      if b.bytesUsed != 0 {
        frames := frames + [frame];
      } else if frame.endOfStream {
        frames := frames + [frame];
      }
      if b.last {
        retired := retired + {b.index};
      } else {
        lost := lost + {b.index};
      }
    }

    /** A buffer that cannot be one of the session's is refused. */
    ghost method Refuse(b: Decoded)
      requires |taken| + 1 == |device.given| && device.given[|taken|] == b
      requires Buffers(log) == Select(device.given[..|taken|], taken)
      modifies this`taken
      ensures LogValid() && taken == old(taken) + [false]
    {
      hide Buffers, Select;
      RefuseOne(device.given[..|taken|], taken, b);
      assert device.given[..|taken|] + [b] == device.given;
      taken := taken + [false];
    }

    /** One round of the capture loop. A slot is lost when its refill fails, and only then. */
    method PumpOne(havePool: bool) returns (more: bool, s: Status)
      requires CaptureValid() && FramesValid() && LogValid() && configured
      modifies this`slots, this`frames, this`log, this`lost, this`retired, this`queues, this`taken, this`nullPool
      modifies device`ready, device`given, device`captureEmpty
      ensures CaptureValid() && FramesValid() && LogValid() && Shrinks(old(slots), slots)
      ensures old(retired) <= retired && old(log) <= log && TookNew(old(taken), taken, s)
      ensures nullPool <==> old(nullPool) || (!havePool && NonLast(log, |old(log)|))
      ensures s == OK ==> more || device.captureEmpty
      ensures if s != OK && NonLast(log, |old(log)|) then old(lost) <= lost && |lost| == |old(lost)| + 1
              else lost == old(lost)
      ensures NoneQueued(old(slots)) ==> log == old(log) && slots == old(slots)
      ensures more ==> s == OK && device.ready < old(device.ready)
    {
      hide SlotsHeld, SetupOnce, Accounted, Phase, Matches, Frames, NoneQueued, Buffers, Select, NonLast;
      EmptyHanded(slots, geometry);
      NonLastNone(log);
      ghost var given := device.given;
      var r := device.DequeueCapture();
      if r.Again? || (r.Pipe? && draining) { return false, OK; }
      if !r.Buffer? { return false, Corrupted; }
      var b := r.buffer;
      assert device.given[..|given|] == given;
      if b.index >= |slots| || slots[b.index].block.None? {
        Refuse(b);
        return false, Corrupted;
      }
      TakeOne(log, given, taken, Real(b, slots[b.index].block.value, geometry.visible));
      TakeBuffer(b);
      taken := taken + [true];
      s := OK;
      if !b.last {
        s := FetchAndQueue(b.index, havePool);
      }
      NonLastOne(old(log), log[|old(log)|]);
      more := s == OK;
    }

    /** Publishes what the driver has. Only a call that fails can lose a slot, and at most one; once
        every slot is lost or retired, nothing more comes out. */
    method PumpDecoderCapture(havePool: bool) returns (s: Status)
      requires CaptureValid() && FramesValid() && LogValid()
      modifies this`slots, this`frames, this`log, this`lost, this`retired, this`queues, this`taken, this`nullPool
      modifies device`ready, device`given, device`captureEmpty
      ensures CaptureValid() && FramesValid() && LogValid() && Shrinks(old(slots), slots)
      ensures old(retired) <= retired && old(log) <= log && TookNew(old(taken), taken, s)
      ensures nullPool <==> old(nullPool) || (!havePool && NonLast(log, |old(log)|))
      ensures s == OK && configured ==> device.captureEmpty
      ensures !configured ==> s == OK && slots == old(slots) && log == old(log)
      ensures s == OK ==> lost == old(lost)
      ensures lost == old(lost) || (old(lost) <= lost && |lost| == |old(lost)| + 1)
      ensures NoneQueued(old(slots)) ==> log == old(log) && slots == old(slots)
    {
      hide SlotsHeld, SetupOnce, Accounted, Phase, Matches, Frames, NoneQueued, Buffers, Select, LogValid, NonLast;
      NonLastNone(log);
      if !configured { return OK; }
      var more := true;
      s := OK;
      while more
        invariant CaptureValid() && FramesValid() && LogValid() && Shrinks(old(slots), slots)
        invariant old(retired) <= retired && old(log) <= log && TookNew(old(taken), taken, s)
        invariant nullPool <==> old(nullPool) || (!havePool && NonLast(log, |old(log)|))
        invariant (more ==> s == OK) && (s == OK ==> lost == old(lost) && (more || device.captureEmpty))
        invariant lost == old(lost) || (old(lost) <= lost && |lost| == |old(lost)| + 1)
        invariant NoneQueued(old(slots)) ==> log == old(log) && slots == old(slots)
        decreases more, device.ready
      {
        ghost var before, marked, logged := slots, taken, log;
        more, s := PumpOne(havePool);
        ShrinksFurther(old(slots), before, slots);
        NonLastMore(old(log), logged, log);
        TookMore(old(taken), marked, taken, OK, s);
      }
    }

    // ----- input -----

    method DequeueDecoderInputs() returns (s: Status)
      modifies this`inputs, device`ready, device`inputEmpty
      ensures s == Corrupted || (s == OK && device.inputEmpty)
      ensures |inputs| == |old(inputs)| && forall i :: 0 <= i < |inputs| && inputs[i] ==> old(inputs)[i]
    {
      while true
        invariant |inputs| == |old(inputs)| && forall i :: 0 <= i < |inputs| && inputs[i] ==> old(inputs)[i]
        decreases device.ready
      {
        var r := device.DequeueInput();
        if !r.Buffer? { return if r.Again? then OK else Corrupted; }
        if r.buffer >= |inputs| { return Corrupted; }
        inputs := inputs[r.buffer := false];
      }
    }

    /** Copies one access unit into a free input slot. */
    method QueueDecoderPacket(data: seq<byte>, frameIndex: nat) returns (s: Status)
      requires Valid()
      modifies this`inputs, this`receivedInput, this`submitted, device`ready, device`inputEmpty
      ensures Valid()
      ensures data == [] || |data| > codedSize ==> s == BadValue && inputs == old(inputs)
      ensures s == Blocking ==> device.inputEmpty && forall i :: 0 <= i < |inputs| ==> inputs[i]
      ensures submitted == old(submitted) + if s == OK then [Packet(data, frameIndex)] else []
      ensures receivedInput == (old(receivedInput) || s == OK)
      ensures s == OK ==> exists i :: 0 <= i < |inputs| && inputs[i] && |data| <= inputLengths[i]
    {
      hide CaptureValid, FramesValid, LogValid;
      if data == [] || |data| > codedSize { return BadValue; }
      s := DequeueDecoderInputs();
      if s != OK { return; }
      var slot := 0;
      while slot < |inputs| && inputs[slot]
        invariant slot <= |inputs| && forall i :: 0 <= i < slot ==> inputs[i]
      {
        slot := slot + 1;
      }
      if slot == |inputs| { return Blocking; }
      if |data| > inputLengths[slot] { return BadValue; }
      var accepted := Succeeds();
      if !accepted { return Corrupted; }
      inputs := inputs[slot := true];
      receivedInput := true;
      submitted := submitted + [Packet(data, frameIndex)];
      s := OK;
    }

    // ----- output -----

    method HandleDecoderEvents(havePool: bool) returns (s: Status)
      requires CaptureValid()
      modifies this`slots, this`geometry, this`configured, this`streaming, this`setupPending,
               this`queues, this`lost, this`retired, this`stale, this`setups, this`nullPool
      modifies device`ready, device`eventsEmpty, device`changes
      ensures CaptureValid() && nullPool == old(nullPool) && setups - old(setups) == device.changes - old(device.changes)
      ensures s == OK ==> !setupPending && device.eventsEmpty
    {
      hide SlotsHeld, SetupOnce, Accounted, Matches;
      while true
        invariant CaptureValid() && nullPool == old(nullPool)
        invariant setups - old(setups) == device.changes - old(device.changes)
        decreases device.ready
      {
        var r := device.DequeueEvent();
        if !r.Buffer? {
          if !r.Again? { return Corrupted; }
          break;
        }
        if r.buffer {
          s := BeginDecoderCaptureSetup();
          if s != OK { return; }
        }
      }
      s := ProgressDecoderCaptureSetup(havePool);
    }

    /** The driver had nothing more to say on any of its queues. */
    ghost predicate DeviceIdle()
      reads this`configured, device
    {
      device.eventsEmpty && device.inputEmpty && (configured ==> device.captureEmpty)
    }

    /** Events, then inputs, then outputs; an interrupted setup still lets the inputs be reclaimed. */
    method PumpDecoder(havePool: bool) returns (s: Status)
      requires CaptureValid() && FramesValid() && LogValid()
      modifies this`slots, this`geometry, this`configured, this`streaming, this`setupPending, this`frames,
               this`inputs, this`log, this`queues, this`lost, this`retired, this`stale, this`setups,
               this`taken, this`nullPool, device
      ensures CaptureValid() && FramesValid() && LogValid() && old(log) <= log && |inputs| == |old(inputs)|
      ensures TookNew(old(taken), taken, s)
      ensures nullPool <==> old(nullPool) || (!havePool && NonLast(log, |old(log)|))
      ensures s == OK ==> !setupPending && DeviceIdle()
    {
      hide CaptureValid, FramesValid, LogValid, NonLast;
      NonLastNone(log);
      var handled := HandleDecoderEvents(havePool);
      if handled != OK && handled != Blocking { return handled; }
      s := DequeueDecoderInputs();
      if s != OK { return; }
      if handled == Blocking { return Blocking; }
      s := PumpDecoderCapture(havePool);
    }

    method HandOut() returns (front: Frame)
      requires FramesValid() && frames != []
      modifies this`frames, this`delivered
      ensures FramesValid() && front == old(frames)[0] && delivered == old(delivered) + [front]
    {
      hide Frames;
      front := frames[0];
      assert delivered + frames == delivered + [front] + frames[1..];
      frames, delivered := frames[1..], delivered + [front];
    }

    /** Hands out the oldest pending frame. */
    method DequeueDecoderFrame(havePool: bool, wait: bool) returns (s: Status, output: Option<Frame>)
      requires Valid()
      modifies this`slots, this`geometry, this`configured, this`streaming, this`setupPending, this`frames, this`inputs,
               this`log, this`delivered, this`queues, this`lost, this`retired, this`stale, this`setups,
               this`taken, this`nullPool, device
      ensures Valid() && old(log) <= log && TookNew(old(taken), taken, s)
      ensures nullPool <==> old(nullPool) || (!havePool && NonLast(log, |old(log)|))
      ensures s == OK <==> output.Some?
      ensures delivered == old(delivered) + if s == OK then [output.value] else []
      ensures s == OK && old(frames) != [] ==> output.value == old(frames)[0]
    {
      hide CaptureValid, LogValid, Frames, TookNew, NonLast;
      output := None;
      s := PumpDecoder(havePool);
      PendingGrows(old(log), log, delivered, old(frames), frames);
      if s != OK && s != Blocking { return; }
      NoneRefused(old(taken), taken, s);
      if frames == [] && wait {
        var ready := Succeeds();
        if !ready {
          var timedOut := *;
          return if timedOut then TimedOut else Corrupted, None;
        }
        ghost var marked, logged, first := taken, log, s;
        s := PumpDecoder(havePool);
        TookMore(old(taken), marked, taken, first, s);
        NonLastMore(old(log), logged, log);
        if s != OK && s != Blocking { return; }
        NoneRefused(old(taken), taken, s);
      }
      if frames == [] {
        return if s == Blocking then Blocking else NotFound, None;
      }
      var front := HandOut();
      output := Some(front);
      s := OK;
    }

    /** The end of a stream that never got any input is a frame of its own. */
    method StartDecoderDrain() returns (s: Status)
      requires FramesValid() && LogValid()
      modifies this`frames, this`draining, this`log
      ensures FramesValid() && LogValid()
      ensures s == OK <==> draining
      ensures log == old(log) + if !old(draining) && !receivedInput then [Synthetic] else []
    {
      hide Frames, Buffers, Select;
      if draining { return OK; }
      if !receivedInput {
        FramesSnoc(log, Synthetic);
        TakeOne(log, device.given, taken, Synthetic);
        log := log + [Synthetic];
        frames := frames + [Frame(None, 0, Visible(0, 0, 0, 0), true)];
        draining := true;
        return OK;
      }
      var stopped := Succeeds();
      if !stopped { return Corrupted; }
      draining := true;
      s := OK;
    }

    // ----- opening and closing -----

    /** Ends the epoch: nothing of the session is left. */
    method Close()
      modifies this, device`given
      ensures nullPool == old(nullPool)
      ensures Valid() && !configured && !setupPending && !draining && !receivedInput
      ensures slots == [] && frames == [] && inputs == [] && log == [] && delivered == [] && submitted == [] && taken == []
    {
      hide CaptureValid, FramesValid, LogValid;
      ClearCapture();
      ClearFrames();
      inputs, inputLengths, codedSize, submitted := [], [], 0, [];
    }

    method ClearFrames()
      modifies this`frames, this`receivedInput, this`draining, this`log, this`delivered, this`taken, device`given
      ensures FramesValid() && LogValid() && !receivedInput && !draining
      ensures frames == [] && log == [] && delivered == [] && taken == []
    {
      device.Release();
      frames, receivedInput, draining, log, delivered, taken := [], false, false, [], [], [];
    }

    method ClearCapture()
      modifies this`slots, this`geometry, this`configured, this`streaming, this`setupPending,
               this`queues, this`lost, this`retired, this`stale
      ensures CaptureValid() && slots == [] && !configured && !setupPending
    {
      slots, geometry, configured, streaming, setupPending := [], NO_GEOMETRY, false, false, false;
      queues, lost, retired, stale := [], {}, {}, false;
    }

    method Open() returns (s: Status)
      modifies this, device`given
      ensures nullPool == old(nullPool) && taken == []
      ensures Valid() && !configured && !setupPending && delivered == [] && log == []
    {
      hide CaptureValid, FramesValid, LogValid;
      Close();
      var deviceOpen, supported, formatSet := *, *, *;
      if !deviceOpen { return Corrupted; }
      if !supported { return Omitted; }
      if !formatSet { return Corrupted; }
      codedSize := *;
      var lengths: seq<nat>, mapped := *, *;
      if lengths == [] { return NoMemory; }
      if !mapped { return Corrupted; }
      inputs, inputLengths := seq(|lengths|, _ => false), lengths;
      var started := Succeeds();
      s := if started then OK else Corrupted;
    }
  }

  /** Slots only leave the queue for good, until the next setup. */
  ghost predicate Shrinks(before: seq<Slot>, after: seq<Slot>) {
    |before| == |after| && forall i :: 0 <= i < |before| && after[i].queued ==> before[i].queued
  }

  /** Only a call that reports corruption refuses a buffer, and only the last one it was given. */
  ghost predicate TookNew(taken: seq<bool>, taken': seq<bool>, s: Status) {
    taken <= taken' && forall k :: |taken| <= k < |taken'| && !taken'[k] ==> k == |taken'| - 1 && s == Corrupted
  }

  /** Some buffer taken since `from` is one whose slot had to be refilled. */
  ghost predicate NonLast(log: seq<Taken>, from: nat) {
    exists k :: from <= k < |log| && log[k].Real? && !log[k].b.last
  }

  lemma NonLastNone(log: seq<Taken>)
    ensures !NonLast(log, |log|)
  {
  }

  lemma NonLastOne(log: seq<Taken>, t: Taken)
    ensures NonLast(log + [t], |log|) <==> t.Real? && !t.b.last
  {
    assert (log + [t])[|log|] == t;
  }

  lemma NonLastMore(a: seq<Taken>, b: seq<Taken>, c: seq<Taken>)
    requires a <= b <= c
    ensures NonLast(c, |a|) <==> NonLast(b, |a|) || NonLast(c, |b|)
  {
    if k :| |a| <= k < |b| && b[k].Real? && !b[k].b.last {
      assert c[k] == b[k];
    }
    if k :| |a| <= k < |c| && c[k].Real? && !c[k].b.last {
      assert k < |b| ==> b[k] == c[k];
    }
  }

  lemma NoneRefused(a: seq<bool>, b: seq<bool>, s: Status)
    requires TookNew(a, b, s) && s != Corrupted
    ensures forall s' :: TookNew(a, b, s')
  {
  }

  lemma TookMore(a: seq<bool>, b: seq<bool>, c: seq<bool>, s: Status, s': Status)
    requires TookNew(a, b, s) && s != Corrupted && TookNew(b, c, s')
    ensures TookNew(a, c, s')
  {
    assert forall k :: |a| <= k < |b| ==> b[k] == c[k];
  }

  lemma EmptyHanded(slots: seq<Slot>, g: Geometry)
    requires SlotsHeld(slots, g)
    ensures NoneQueued(slots) ==> forall i :: 0 <= i < |slots| ==> slots[i].block.None?
  {
  }

  lemma ShrinksFurther(a: seq<Slot>, b: seq<Slot>, c: seq<Slot>)
    requires Shrinks(a, b) && Shrinks(b, c)
    ensures Shrinks(a, c)
  {
  }

  lemma RefilledAccounted(slots: seq<Slot>, g: Geometry, configured: bool, lost: set<nat>, retired: set<nat>,
                          queues: seq<nat>, index: nat, block: Block)
    requires SlotsHeld(slots, g) && SetupOnce(slots, configured, queues) && Accounted(slots, configured, lost, retired)
    requires configured && index < |slots| && index in lost && Matches(block, g)
    ensures var after := slots[index := Slot(Some(block), true)];
      && SlotsHeld(after, g) && SetupOnce(after, configured, queues)
      && Accounted(after, configured, lost - {index}, retired)
  {
  }

  lemma SetupQueued(slots: seq<Slot>, g: Geometry, configured: bool, lost: set<nat>, retired: set<nat>,
                    queues: seq<nat>, index: nat, block: Block)
    requires SlotsHeld(slots, g) && SetupOnce(slots, configured, queues) && Accounted(slots, configured, lost, retired)
    requires !configured && index < |slots| && !slots[index].queued && Matches(block, g)
    ensures var after := slots[index := Slot(Some(block), true)];
      && SlotsHeld(after, g) && SetupOnce(after, configured, queues + [index])
      && Accounted(after, configured, lost, retired)
  {
  }

  lemma TakenAccounted(slots: seq<Slot>, g: Geometry, configured: bool, lost: set<nat>, retired: set<nat>,
                       queues: seq<nat>, index: nat, last: bool)
    requires SlotsHeld(slots, g) && SetupOnce(slots, configured, queues) && Accounted(slots, configured, lost, retired)
    requires configured && index < |slots| && slots[index].block.Some?
    ensures index !in lost && index !in retired && slots[index].queued
    ensures var after := slots[index := FREE];
      && SlotsHeld(after, g) && SetupOnce(after, configured, queues)
      && Accounted(after, configured, if last then lost else lost + {index}, if last then retired + {index} else retired)
  {
  }

  lemma {:induction false} FramesGrow(before: seq<Taken>, after: seq<Taken>)
    requires before <= after
    ensures Frames(before) <= Frames(after)
    decreases |after|
  {
    if before != after {
      FramesGrow(before, after[..|after| - 1]);
    }
  }

  /** The front of the pending queue does not change while frames arrive. */
  lemma PendingGrows(before: seq<Taken>, after: seq<Taken>, delivered: seq<Frame>, pending: seq<Frame>, pending': seq<Frame>)
    requires before <= after && delivered + pending == Frames(before) && delivered + pending' == Frames(after)
    ensures pending <= pending'
  {
    FramesGrow(before, after);
    assert pending == (delivered + pending)[|delivered|..] && pending' == (delivered + pending')[|delivered|..];
  }

  lemma {:induction false} DistinctOnce(queues: seq<nat>, i: nat)
    requires Distinct(queues)
    ensures multiset(queues)[i] == if i in queues then 1 else 0
    decreases |queues|
  {
    if queues != [] {
      var before, last := queues[..|queues| - 1], queues[|queues| - 1];
      assert queues == before + [last];
      DistinctOnce(before, i);
      assert last !in before;
    }
  }

  /** However often the setup was interrupted, streaming starts with every slot queued exactly once. */
  lemma QueuedExactlyOnce(slots: seq<Slot>, queues: seq<nat>, i: nat)
    requires SetupOnce(slots, true, queues)
    ensures multiset(queues)[i] == if i < |slots| then 1 else 0
  {
    DistinctOnce(queues, i);
  }

  // ----- whole runs -----

  datatype Command =
    | Open
    | Close
    | QueuePacket(packet: Packet)
    | DequeueFrame(havePool: bool, wait: bool)
    | Drain

  predicate BeginsEpoch(command: Command) {
    command.Open? || command.Close?
  }

  predicate WithoutPool(command: Command) {
    command.DequeueFrame? && !command.havePool
  }

  /** What a command does to the log of the epoch. */
  ghost predicate Logged(command: Command, before: seq<Taken>, after: seq<Taken>) {
    match command
    case Open => after == []
    case Close => after == []
    case QueuePacket(_) => after == before
    case DequeueFrame(_, _) => before <= after
    case Drain => after == before || after == before + [Synthetic]
  }

  /** The log before the first command and after each one. */
  ghost predicate History(commands: seq<Command>, logs: seq<seq<Taken>>) {
    && |logs| == |commands| + 1 && logs[0] == []
    && forall k :: 0 <= k < |commands| ==> Logged(commands[k], logs[k], logs[k + 1])
  }

  /** A call without a pool took a buffer whose slot it had to refill. */
  ghost predicate RefilledFromNull(commands: seq<Command>, logs: seq<seq<Taken>>)
    requires |logs| == |commands| + 1
  {
    exists k :: 0 <= k < |commands| && WithoutPool(commands[k]) && NonLast(logs[k + 1], |logs[k]|)
  }

  lemma HistorySnoc(commands: seq<Command>, logs: seq<seq<Taken>>, command: Command, log: seq<Taken>)
    requires History(commands, logs) && Logged(command, logs[|commands|], log)
    ensures History(commands + [command], logs + [log])
    ensures RefilledFromNull(commands + [command], logs + [log]) <==>
      RefilledFromNull(commands, logs) || (WithoutPool(command) && NonLast(log, |logs[|commands|]|))
  {
    hide NonLast, WithoutPool, Logged;
    var n, commands', logs' := |commands|, commands + [command], logs + [log];
    assert forall k :: 0 <= k < n ==> commands'[k] == commands[k];
    assert forall k :: 0 <= k <= n ==> logs'[k] == logs[k];
    assert commands'[n] == command && logs'[n] == logs[n] && logs'[n + 1] == log;
  }

  /** Whatever the calls and whatever the driver and the block pools answer: the invariants hold, and
      what was handed out, together with what waits, are the frames of the buffers taken. Unless a call
      of the epoch reported corruption, those are all the buffers of the epoch. A null pool was used if
      and only if a call without a pool took a buffer that was not the last one. */
  method AnyRun(commands: seq<Command>)
    returns (session: Session, statuses: seq<Status>, ghost logs: seq<seq<Taken>>)
    ensures session.Valid() && |statuses| == |commands|
    ensures session.delivered + session.frames == Frames(session.log)
    ensures Uncorrupted(statuses, EpochStart(commands, BeginsEpoch)) ==> Buffers(session.log) == session.device.given
    ensures History(commands, logs) && session.log == logs[|commands|]
    ensures session.nullPool <==> RefilledFromNull(commands, logs)
  {
    session := new Session();
    statuses := [];
    logs := [[]];
    for k := 0 to |commands|
      invariant session.Valid() && fresh(session) && fresh(session.device) && |statuses| == k
      invariant Uncorrupted(statuses, EpochStart(commands[..k], BeginsEpoch)) ==> AllTaken(session.taken)
      invariant History(commands[..k], logs) && session.log == logs[k]
      invariant session.nullPool <==> RefilledFromNull(commands[..k], logs)
    {
      hide Session.CaptureValid, Session.FramesValid, Session.LogValid, TookNew, NonLast, EpochStart, Uncorrupted;
      hide History, RefilledFromNull, Logged;
      ghost var marked := session.taken;
      var s := RunCommand(session, commands[k]);
      StillAllTaken(marked, session.taken, s);
      assert commands[..k + 1] == commands[..k] + [commands[k]];
      EpochGrows(commands[..k], BeginsEpoch, commands[k], statuses, s);
      HistorySnoc(commands[..k], logs, commands[k], session.log);
      statuses, logs := statuses + [s], logs + [session.log];
    }
    assert commands[..|commands|] == commands;
    if Uncorrupted(statuses, EpochStart(commands, BeginsEpoch)) {
      SelectAll(session.device.given, session.taken);
    }
  }

  ghost predicate AllTaken(taken: seq<bool>) {
    forall k :: 0 <= k < |taken| ==> taken[k]
  }

  lemma StillAllTaken(before: seq<bool>, after: seq<bool>, s: Status)
    ensures after == [] ==> AllTaken(after)
    ensures TookNew(before, after, s) && AllTaken(before) && s != Corrupted ==> AllTaken(after)
  {
  }

  method RunCommand(session: Session, command: Command) returns (s: Status)
    requires session.Valid()
    modifies session, session.device
    ensures session.Valid() && Logged(command, old(session.log), session.log)
    ensures if BeginsEpoch(command) then session.taken == []
            else TookNew(old(session.taken), session.taken, s)
    ensures session.nullPool <==>
      old(session.nullPool) || (WithoutPool(command) && NonLast(session.log, |old(session.log)|))
  {
    hide Session.CaptureValid, Session.FramesValid, Session.LogValid, NonLast;
    match command
    case Open => s := session.Open();
    case Close =>
      session.Close();
      s := OK;
    case QueuePacket(p) => s := session.QueueDecoderPacket(p.data, p.frameIndex);
    case DequeueFrame(havePool, wait) =>
      var output;
      s, output := session.DequeueDecoderFrame(havePool, wait);
    case Drain => s := session.StartDecoderDrain();
  }
}
