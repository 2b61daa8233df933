/** The V4L2 encoder session: input slots, MMAP capture slots, the pending queue, the metadata
    list and the bitrate limits, across every public call. */
module EncoderSession {
  import opened Wrappers
  import opened Nal
  import opened EncoderMetadata
  import opened CaptureLedger
  import opened EncoderDevice
  import opened V4l2
  import opened Integers
  import H264Level

  const INT32_MAX: nat := 0x7FFF_FFFF

  type BufferId = nat

  datatype InputSlot = InputSlot(owner: Option<BufferId>, converted: Option<BufferId>, queued: bool)

  const FREE_SLOT := InputSlot(None, None, false)

  /** An imported DMA-BUF, as far as the session looks at it. */
  datatype Layout = Layout(linearNv12: bool, stride: uint32, totalSize: nat)

  datatype Settings = Settings(width: uint32, height: uint32, bitrate: uint32,
                               frameRate: uint32, profile: H264Level.Profile)

  predicate Usable(s: Option<Settings>) {
    s.Some? && s.value.width != 0 && s.value.height != 0 && s.value.bitrate != 0 && s.value.frameRate != 0
  }

  /** What the outside contributes to converting an RGB frame. */
  datatype Conversion = Conversion(sizeMatches: bool, pool: bool, fetched: Status, block: BufferId,
                                   layout: Option<Layout>, converted: Status)

  /** One call's input buffer and what importing it yields. */
  datatype Input = Input(owner: Option<BufferId>, graphic: bool, blocks: bool, fence: Status,
                         layout: Option<Layout>, conversion: Conversion)

  /** What a block pool does for one output frame. */
  datatype Pool = NoPool | Pool(fetched: Status, mapped: Status, capacity: nat)

  /** What `ConfigureEncoder` told the driver about the stream. */
  datatype Stream = Stream(width: uint32, height: uint32, bound: uint32,
                           level: nat)

  /** Every input slot in the kernel keeps exactly one of its two possible owners alive. */
  ghost predicate InputsHeld(inputs: seq<InputSlot>, owned: set<nat>) {
    && (forall i :: i in owned ==> i < |inputs|)
    && forall i :: 0 <= i < |inputs| ==>
         && (inputs[i].queued <==> i in owned)
         && (inputs[i].queued <==> (inputs[i].owner.Some? != inputs[i].converted.Some?))
         && !(inputs[i].owner.Some? && inputs[i].converted.Some?)
  }

  /** Frame indices: the queued ones are taken, in order per time, or still in the metadata list.
      Entries in the queue and frames handed out are images of what the driver gave. */
  ghost predicate Books(queued: seq<FrameMeta>, published: seq<Produced>, outstanding: seq<Produced>,
                        metadata: seq<FrameMeta>, pending: seq<PendingFrame>, delivered: seq<EncodedFrame>) {
    && Conserved(queued, Taken(published + outstanding), metadata)
    && PendingAre(pending, outstanding) && DeliveredAre(delivered, published)
  }

  /** Nothing the driver gave is dropped or reordered, until a call reports corruption. */
  ghost predicate Undropped(faulted: bool, published: seq<Produced>, outstanding: seq<Produced>, given: seq<Given>) {
    faulted || Buffers(published + outstanding) == Kept(given)
  }

  /** Every capture slot has one holder, a pending one has its bytes, and none is lost before a
      call reports corruption. */
  ghost predicate SlotsAccounted(lengths: seq<nat>, holder: seq<Holder>, owned: set<nat>, outstanding: seq<Produced>,
                                 memory: seq<seq<byte>>, faulted: bool) {
    && lengths == Lengths(memory) && |holder| == |memory|
    && Slots(holder, owned, outstanding) && Intact(memory, outstanding)
    && (!faulted ==> forall i :: 0 <= i < |holder| ==> holder[i] != Lost)
  }

  ghost predicate NotStarted(metadata: seq<FrameMeta>, queued: seq<FrameMeta>, outstanding: seq<Produced>,
                             published: seq<Produced>, given: seq<Given>, ownedInputs: set<nat>, faulted: bool) {
    && metadata == [] && queued == [] && given == [] && ownedInputs == {} && !faulted
    && (forall k :: 0 <= k < |outstanding| ==> outstanding[k].Synthetic?)
    && (forall k :: 0 <= k < |published| ==> published[k].Synthetic?)
  }

  /** The advertised level is the least one for a frame that covers the settings and the stride, and
      for the bitrate bound of the stream, which on Venus is the peak. */
  ghost predicate LevelChosen(settings: Option<Settings>, stream: Option<Stream>, rawStride: nat, venus: bool,
                              peakBitrate: nat) {
    && settings.Some? && stream.Some?
    && stream.value.width >= rawStride
    && stream.value.width >= settings.value.width && stream.value.height >= settings.value.height
    && H264Level.FindMinimumLevel(stream.value.width, stream.value.height, settings.value.frameRate,
                                  stream.value.bound, settings.value.profile) == Some(stream.value.level)
    && (venus ==> stream.value.bound == peakBitrate)
  }

  class Session {
    const device: Device
    const avc: bool

    var venus: bool
    var settings: Option<Settings>
    var configured: bool
    var draining: bool
    var inputs: seq<InputSlot>
    var metadata: seq<FrameMeta>
    var captureLengths: seq<nat>
    var pending: seq<PendingFrame>
    var currentBitrate: uint32
    var effectiveBitrate: uint32
    var peakBitrate: uint32
    var rawStride: uint32
    var rawSize: nat

    // The epoch's history, for the specification only.
    ghost var queued: seq<FrameMeta>
    ghost var published: seq<Produced>
    ghost var outstanding: seq<Produced>
    ghost var delivered: seq<EncodedFrame>
    ghost var holder: seq<Holder>
    ghost var faulted: bool
    ghost var stream: Option<Stream>

    ghost predicate Valid()
      reads this, device
    {
      && InputsHeld(inputs, device.ownedInputs)
      && Books(queued, published, outstanding, metadata, pending, delivered)
      && Undropped(faulted, published, outstanding, device.given)
      && (if configured then
            && SlotsAccounted(captureLengths, holder, device.ownedCapture, outstanding, device.memory, faulted)
            && |metadata| <= |inputs|
            && (venus ==> effectiveBitrate <= peakBitrate)
            && (avc ==> LevelChosen(settings, stream, rawStride, venus, peakBitrate))
          else NotStarted(metadata, queued, outstanding, published, device.given, device.ownedInputs, faulted))
    }

    constructor (avc: bool)
      ensures Valid() && fresh(device) && !configured && !draining && queued == [] && delivered == []
    {
      device := new Device();
      this.avc := avc;
      venus, settings, configured, draining := false, None, false, false;
      inputs, metadata, captureLengths, pending := [], [], [], [];
      currentBitrate, effectiveBitrate, peakBitrate, rawStride, rawSize := 0, 0, 0, 0, 0;
      queued, published, outstanding, delivered := [], [], [], [];
      holder, faulted, stream := [], false, None;
    }

    // ----- bitrate -----

    /** Writes a bitrate control and reads back what the driver stored. */
    method ApplyBitrateControl(value: int) returns (s: Status, effective: int)
      requires 0 < value <= INT32_MAX
      ensures s == OK ==> 0 < effective <= INT32_MAX
    {
      effective := 0;
      var supported := Succeeds();
      if !supported {
        return Omitted, 0;
      }
      var written := Succeeds();
      if !written {
        return Corrupted, 0;
      }
      var read := Succeeds();
      var stored: int := *;
      if !read || stored <= 0 || stored > INT32_MAX {
        return Corrupted, 0;
      }
      return OK, stored;
    }

    /** Once a Venus session runs, no accepted bitrate exceeds the peak it was started with. */
    method SetEncoderBitrate(bitrate: uint32) returns (s: Status)
      requires configured && venus ==> effectiveBitrate <= peakBitrate
      modifies this`currentBitrate, this`effectiveBitrate, this`peakBitrate
      ensures s == OK ==> bitrate > 0 && currentBitrate == bitrate && 0 < effectiveBitrate <= INT32_MAX
      ensures s == OK && venus ==> effectiveBitrate <= peakBitrate
      ensures s != OK ==> currentBitrate == old(currentBitrate) && effectiveBitrate == old(effectiveBitrate)
      ensures s != OK || configured || !venus ==> peakBitrate == old(peakBitrate)
    {
      if bitrate == 0 || bitrate > INT32_MAX {
        return BadValue;
      }
      var target: int := bitrate;
      if venus && configured {
        var tried := Succeeds();
        if !tried {
          return Corrupted;
        }
        var normalized: int := *;
        if normalized <= 0 || normalized > INT32_MAX || normalized > peakBitrate {
          return BadValue;
        }
        target := normalized;
      }
      var effective;
      s, effective := ApplyBitrateControl(target);
      if s != OK {
        return;
      }
      if venus && configured && effective > peakBitrate {
        return Corrupted;
      }
      if venus && !configured {
        var peak;
        s, peak := ApplyBitrateControl(effective);
        if s != OK {
          return;
        }
        if peak < effective {
          return BadValue;
        }
        peakBitrate := peak;
      }
      currentBitrate := bitrate;
      effectiveBitrate := effective;
      return OK;
    }

    // ----- capture -----

    /** Dequeues one capture buffer. A frame or an end of stream waits in the queue with its slot
        still dequeued; an empty buffer goes straight back. */
    method PumpOne() returns (more: bool, s: Status)
      requires Valid() && configured
      modifies this`metadata, this`pending, this`outstanding, this`holder, this`faulted, device
      ensures Valid() && device.ownedInputs == old(device.ownedInputs) && device.inputEmpty == old(device.inputEmpty)
      ensures old(outstanding) <= outstanding
      ensures s == OK || s == Corrupted
      ensures s == OK ==> faulted == old(faulted) && (more || device.captureEmpty)
      ensures more ==> s == OK && device.ready < old(device.ready)
    {
      hide Books, Slots, SlotsAccounted, Preserved, Kept, Buffers, InputsHeld, LevelChosen;
      ghost var before, owned, given := device.memory, device.ownedCapture, device.given;
      var r := device.DequeueCapture();
      StillAccounted(captureLengths, holder, owned, outstanding, before, device.memory, faulted);
      if !r.Buffer? {
        return false, if r.Again? || (r.Pipe? && draining) then OK else Corrupted;
      }
      var b := r.buffer;
      SlotRange(captureLengths, holder, owned, outstanding, device.memory, faulted, b.index);
      if b.index >= |captureLengths| {
        assert owned - {b.index} == owned;
        FaultAccounted(captureLengths, holder, owned, outstanding, device.memory, faulted);
        faulted := true;
        return false, Corrupted;
      }
      if b.bytesUsed > captureLengths[b.index] || b.dataOffset > b.bytesUsed {
        Lose(b, owned);
        return false, Corrupted;
      }
      PreservedSnapshot(device.memory, b);
      s := Keep(b, owned, given);
      more := s == OK;
    }

    /** One buffer is out of the kernel and not yet accounted for. */
    ghost predicate Holding(b: CaptureBuffer, owned: set<nat>)
      reads this, device
    {
      && configured && InputsHeld(inputs, device.ownedInputs)
      && Books(queued, published, outstanding, metadata, pending, delivered)
      && SlotsAccounted(captureLengths, holder, owned, outstanding, device.memory, faulted)
      && |metadata| <= |inputs|
      && (venus ==> effectiveBitrate <= peakBitrate)
      && (avc ==> LevelChosen(settings, stream, rawStride, venus, peakBitrate))
      && b.index in owned && device.ownedCapture == owned - {b.index}
    }

    /** The buffer is a frame-sized range of its slot, and the driver's log ends with it. */
    ghost predicate Logged(b: CaptureBuffer, given: seq<Given>)
      reads this`faulted, this`published, this`outstanding, device`memory, device`given
    {
      && Undropped(faulted, published, outstanding, given)
      && Preserved(device.memory, GivenFor(b))
      && device.given == given + [GivenFor(b)]
    }

    ghost function GivenFor(b: CaptureBuffer): Given
      reads device`memory
    {
      Given(b, Snapshot(device.memory, b))
    }

    /** The calling operation fails and forgets the buffer: its slot is lost. */
    ghost method Lose(b: CaptureBuffer, owned: set<nat>)
      requires Holding(b, owned)
      modifies this`holder, this`faulted
      ensures Valid() && configured
    {
      hide Books, Slots, SlotsAccounted, Kept, Buffers, InputsHeld, LevelChosen;
      LostAccounted(captureLengths, holder, owned, outstanding, device.memory, faulted, b.index);
      holder := holder[b.index := Lost];
      faulted := true;
    }

    /** Appends a frame, or an end of stream, to the queue; its slot stays dequeued. */
    method Enqueue(b: CaptureBuffer, frameIndex: nat, rest: seq<FrameMeta>, ghost owned: set<nat>,
                   ghost given: seq<Given>)
      requires Holding(b, owned) && Logged(b, given) && Keeps(GivenFor(b))
      requires TookFor(metadata, Real(GivenFor(b), frameIndex), rest)
      modifies this`metadata, this`pending, this`outstanding, this`holder
      ensures Valid() && configured && outstanding == old(outstanding) + [Real(GivenFor(b), frameIndex)]
    {
      hide Books, Slots, SlotsAccounted, Preserved, Kept, Buffers, InputsHeld, LevelChosen, TookFor;
      ghost var p := Real(GivenFor(b), frameIndex);
      PushBooks(queued, published, outstanding, metadata, pending, delivered, p, rest);
      PushAccounted(captureLengths, holder, owned, outstanding, device.memory, faulted, p);
      PendingImage(device.memory, b, frameIndex);
      if !faulted {
        KeptPush(published, outstanding, given, p, p.given);
      }
      metadata := rest;
      var frame := EncodedFrame(None, b.bytesUsed - b.dataOffset, frameIndex, b.keyFrame, b.last);
      pending := pending + [PendingFrame(frame, b.index, b.dataOffset)];
      outstanding := outstanding + [p];
      holder := holder[b.index := Queue];
    }

    /** Sorts a dequeued buffer: a frame is matched with its metadata and waits in the queue, so
        does an end of stream, and an empty buffer goes straight back to the kernel. */
    method Keep(b: CaptureBuffer, ghost owned: set<nat>, ghost given: seq<Given>) returns (s: Status)
      requires Holding(b, owned) && Logged(b, given)
      modifies this`metadata, this`pending, this`outstanding, this`holder, this`faulted,
               device`memory, device`ownedCapture
      ensures Valid() && configured && old(outstanding) <= outstanding
      ensures s == OK || s == Corrupted
      ensures s == OK ==> faulted == old(faulted)
    {
      hide Books, Slots, SlotsAccounted, Kept, Buffers, InputsHeld, LevelChosen, TookFor;
      PreservedSnapshot(device.memory, b);
      var size := b.bytesUsed - b.dataOffset;
      if size != 0 {
        var index, rest := TakeFrameIndex(metadata, b.timestamp);
        if index.None? {
          Lose(b, owned);
          return Corrupted;
        }
        TookEntry(metadata, GivenFor(b), index.value, rest);
        Enqueue(b, index.value, rest, owned, given);
        return OK;
      }
      if b.last {
        TookNothing(metadata, GivenFor(b));
        Enqueue(b, 0, metadata, owned, given);
        return OK;
      }
      ghost var before := device.memory;
      KeptSnoc(given, GivenFor(b));
      var ok := device.QueueCapture(b.index);
      assert ok ==> device.ownedCapture == owned;
      StillAccounted(captureLengths, holder, owned, outstanding, before, device.memory, faulted);
      if !ok {
        Lose(b, owned);
        return Corrupted;
      }
      return OK;
    }

    /** Dequeues until the driver has nothing more. */
    method PumpEncoderCapture() returns (s: Status)
      requires Valid() && configured
      modifies this`metadata, this`pending, this`outstanding, this`holder, this`faulted, device
      ensures Valid() && device.ownedInputs == old(device.ownedInputs) && device.inputEmpty == old(device.inputEmpty)
      ensures old(outstanding) <= outstanding
      ensures s == OK || s == Corrupted
      ensures s == OK ==> faulted == old(faulted) && device.captureEmpty
    {
      hide *;
      var more := true;
      s := OK;
      while more
        invariant Valid() && device.ownedInputs == old(device.ownedInputs) && device.inputEmpty == old(device.inputEmpty)
        invariant old(outstanding) <= outstanding
        invariant s == OK || s == Corrupted
        invariant (more ==> s == OK) && (s == OK ==> faulted == old(faulted) && (more || device.captureEmpty))
        decreases more, device.ready
      {
        more, s := PumpOne();
      }
    }

    // ----- input -----

    /** Releases the input images the driver is done with. */
    method DequeueEncoderInputs() returns (s: Status)
      requires Valid() && configured
      modifies this`inputs, device`ownedInputs, device`ready, device`inputEmpty
      ensures Valid() && device.ownedInputs <= old(device.ownedInputs) && |inputs| == |old(inputs)|
      ensures forall i :: 0 <= i < |inputs| ==>
        inputs[i] == if i in device.ownedInputs then old(inputs)[i] else FREE_SLOT
      ensures s == Corrupted || (s == OK && device.inputEmpty)
    {
      hide Books, Undropped, SlotsAccounted, NotStarted, LevelChosen;
      while true
        invariant Valid() && device.ownedInputs <= old(device.ownedInputs) && |inputs| == |old(inputs)|
        invariant forall i :: 0 <= i < |inputs| ==>
          inputs[i] == if i in device.ownedInputs then old(inputs)[i] else FREE_SLOT
        decreases device.ready
      {
        var r := device.DequeueInput();
        if !r.Buffer? {
          return if r.Again? then OK else Corrupted;
        }
        var index := r.buffer;
        if index >= |inputs| {
          return Corrupted;
        }
        inputs := inputs[index := FREE_SLOT];
      }
    }

    method PumpEncoder() returns (s: Status)
      requires Valid() && configured
      modifies this`inputs, this`metadata, this`pending, this`outstanding, this`holder, this`faulted, device
      ensures Valid() && |inputs| == |old(inputs)| && device.ownedInputs <= old(device.ownedInputs)
      ensures old(outstanding) <= outstanding
      ensures s == OK || s == Corrupted
      ensures s == OK ==> faulted == old(faulted) && device.inputEmpty && device.captureEmpty
    {
      s := DequeueEncoderInputs();
      if s == OK {
        s := PumpEncoderCapture();
      }
    }

    /** The first input slot that is not in the kernel. */
    method FindFreeSlot() returns (slot: nat)
      ensures slot <= |inputs| && (slot < |inputs| ==> !inputs[slot].queued)
      ensures forall i :: 0 <= i < slot ==> inputs[i].queued
    {
      slot := 0;
      while slot < |inputs| && inputs[slot].queued
        invariant 0 <= slot <= |inputs|
        invariant forall i :: 0 <= i < slot ==> inputs[i].queued
      {
        slot := slot + 1;
      }
    }

    /** No free slot, or as many frames in flight as slots: the caller must drain first. */
    method Backpressure() returns (s: Status, slot: nat)
      requires Valid() && configured
      modifies this`inputs, this`metadata, this`pending, this`outstanding, this`holder, this`faulted, device
      ensures Valid() && old(outstanding) <= outstanding
      ensures s == OK ==> slot < |inputs| && !inputs[slot].queued && |metadata| < |inputs|
      ensures s == Blocking ==>
        device.inputEmpty && ((forall i :: 0 <= i < |inputs| ==> inputs[i].queued) || |metadata| >= |inputs|)
      ensures s != Corrupted ==> faulted == old(faulted)
    {
      hide Valid;
      slot := 0;
      s := PumpEncoder();
      if s != OK {
        return;
      }
      slot := FindFreeSlot();
      if slot == |inputs| || |metadata| >= |inputs| {
        if pending != [] {
          return Blocking, slot;
        }
        var wait: Status := *;
        if wait != OK {
          return if wait == TimedOut then TimedOut else Corrupted, slot;
        }
        s := PumpEncoder();
        if s != OK {
          return;
        }
        slot := FindFreeSlot();
        if slot == |inputs| || |metadata| >= |inputs| {
          return Blocking, slot;
        }
      }
    }

    /** Imports the input image, converting it when it is not linear NV12. */
    method ImportInput(input: Input) returns (s: Status, layout: Layout, converted: Option<BufferId>)
      ensures s == OK ==> layout.linearNv12
      ensures s == OK ==> input.layout.Some? && (converted.None? <==> input.layout.value.linearNv12)
      ensures s == OK && converted.None? ==> Some(layout) == input.layout
      ensures s == OK && converted.Some? ==> Some(layout) == input.conversion.layout && converted.value == input.conversion.block
    {
      layout, converted := Layout(false, 0, 0), None;
      if input.fence != OK {
        return input.fence, layout, converted;
      }
      if input.layout.None? {
        return Omitted, layout, converted;
      }
      layout := input.layout.value;
      if !layout.linearNv12 {
        var c := input.conversion;
        if !c.sizeMatches {
          return Omitted, layout, converted;
        }
        if !c.pool {
          return NoInit, layout, converted;
        }
        if c.fetched != OK {
          return c.fetched, layout, converted;
        }
        if c.layout.None? || !c.layout.value.linearNv12 {
          return Omitted, layout, converted;
        }
        layout := c.layout.value;
        if c.converted != OK {
          return c.converted, layout, converted;
        }
        converted := Some(c.block);
      }
      return OK, layout, converted;
    }

    /** Negotiates formats and bitrate, advertises the level and starts both queues with every
        capture slot in the kernel. A failure leaves the session not started. */
    method ConfigureEncoder(input: Layout) returns (s: Status)
      requires Valid() && !configured && settings.Some?
      modifies this`configured, this`inputs, this`captureLengths, this`currentBitrate, this`effectiveBitrate,
               this`peakBitrate, this`rawStride, this`rawSize, this`holder, this`stream, device
      ensures Valid() && configured == (s == OK)
      ensures s == OK ==> |inputs| > 0 && metadata == [] && !inputs[0].queued
      ensures s == OK ==> forall i :: 0 <= i < |holder| ==> holder[i] == Kernel
      ensures s == OK ==> rawStride == input.stride
      ensures s == OK && avc ==>
        && LevelChosen(settings, stream, input.stride, venus, peakBitrate)
        && stream.value.bound == H264Level.Max(effectiveBitrate, peakBitrate)
    {
      hide Books, Undropped, NotStarted, LevelChosen, InputsHeld;
      if !input.linearNv12 {
        return Omitted;
      }
      var width: uint32, height: uint32;
      s, width, height := NegotiateLayout(input);
      if s != OK {
        return;
      }
      s := SetEncoderBitrate(settings.value.bitrate);
      if s != OK {
        return;
      }
      var controls: Status := *;
      if controls != OK {
        return controls;
      }
      if avc {
        s := AdvertiseLevel(width, height);
        if s != OK {
          return;
        }
      }
      s := StartQueues();
    }

    /** The coded size that the level must cover: what either queue reports, or the stride. */
    method NegotiateLayout(input: Layout) returns (s: Status, width: uint32, height: uint32)
      requires settings.Some?
      modifies this`rawStride, this`rawSize
      ensures s == OK ==> rawStride == input.stride && rawSize <= input.totalSize
      ensures s == OK ==> width >= settings.value.width && width >= rawStride && height >= settings.value.height
    {
      width, height := settings.value.width, settings.value.height;
      s := *;
      if s != OK {
        return;
      }
      var rawWidth: uint32, rawHeight: uint32 := *, *;
      rawStride, rawSize := *, *;
      if rawStride != input.stride || rawSize > input.totalSize {
        return Omitted, width, height;
      }
      s := *;
      if s != OK {
        return;
      }
      var codedWidth: uint32, codedHeight: uint32 := *, *;
      width := H264Level.Max(H264Level.Max(width, rawWidth), H264Level.Max(codedWidth, rawStride));
      height := H264Level.Max(H264Level.Max(height, rawHeight), codedHeight);
      // The visible crop is set and read back.
      s := *;
    }

    /** Chooses the least level for the bitrate bound and has the driver accept it unchanged. */
    method AdvertiseLevel(width: uint32, height: uint32) returns (s: Status)
      requires settings.Some? && !configured && (venus ==> effectiveBitrate <= peakBitrate)
      requires width >= rawStride && width >= settings.value.width && height >= settings.value.height
      modifies this`stream
      ensures s == OK ==>
        && LevelChosen(settings, stream, rawStride, venus, peakBitrate)
        && stream.value.width == width && stream.value.height == height
        && stream.value.bound == H264Level.Max(effectiveBitrate, peakBitrate)
    {
      hide H264Level.FindMinimumLevel;
      var bound: uint32 := H264Level.Max(effectiveBitrate, peakBitrate);
      var level := H264Level.FindMinimumLevel(width, height, settings.value.frameRate, bound, settings.value.profile);
      if level.None? {
        return BadValue;
      }
      s := *;
      if s == OK {
        stream := Some(Stream(width, height, bound, level.value));
      }
    }

    method StartQueues() returns (s: Status)
      requires Valid() && !configured
      requires venus ==> effectiveBitrate <= peakBitrate
      requires avc ==> LevelChosen(settings, stream, rawStride, venus, peakBitrate)
      modifies this`configured, this`inputs, this`captureLengths, this`holder, device
      ensures Valid() && configured == (s == OK)
      ensures s == OK ==> |inputs| > 0 && metadata == [] && !inputs[0].queued
      ensures s == OK ==> forall i :: 0 <= i < |holder| ==> holder[i] == Kernel
    {
      hide Books, Undropped, LevelChosen, Slots, InputsHeld;
      s := ReserveInputs();
      if s != OK {
        return;
      }
      var requested: Status := *;
      if requested != OK {
        return requested;
      }
      var count := device.AllocateCapture();
      if count == 0 {
        return NoMemory;
      }
      captureLengths := Lengths(device.memory);
      var queued := QueueAllCaptures();
      var streaming := Succeeds();
      if !queued || !streaming {
        return Corrupted;
      }
      holder := seq(count, i => Kernel);
      SlotsInitial(holder, device.ownedCapture, outstanding);
      SyntheticIntact(device.memory, outstanding);
      configured := true;
    }

    /** Sizes the input slots to what the driver granted. */
    method ReserveInputs() returns (s: Status)
      requires Valid() && !configured
      modifies this`inputs, device`ownedInputs
      ensures Valid() && (s == OK ==> |inputs| > 0 && !inputs[0].queued)
    {
      hide Books, Undropped, InputsHeld;
      var requested: Status := *;
      if requested != OK {
        return requested;
      }
      ResizedHeld(inputs, device.ownedInputs);
      var count := device.AllocateInputs();
      if count == 0 {
        return NoMemory;
      }
      inputs := Resize(inputs, count);
      return OK;
    }

    /** Hands every capture slot to the kernel. */
    method QueueAllCaptures() returns (ok: bool)
      requires device.ownedCapture == {}
      modifies device`memory, device`ownedCapture
      ensures Lengths(device.memory) == old(Lengths(device.memory))
      ensures ok ==> forall i :: i in device.ownedCapture <==> 0 <= i < |device.memory|
    {
      ghost var lengths := Lengths(device.memory);
      var count := |device.memory|;
      for index := 0 to count
        invariant |device.memory| == count && Lengths(device.memory) == lengths
        invariant forall i :: i in device.ownedCapture <==> 0 <= i < index
      {
        ghost var before := device.memory;
        ok := device.QueueCapture(index);
        LengthsKept(before, device.memory, device.ownedCapture);
        if !ok {
          return;
        }
      }
      ok := true;
    }

    /** Queues one frame. Only success records its index; nothing else ever removes it from the
        books. A full queue is reported before the frame is converted. */
    method QueueEncoderFrame(input: Input, frameIndex: nat, timestampUs: int, requestSync: bool,
                             bitrate: uint32)
      returns (s: Status)
      requires Valid()
      modifies this, device
      ensures Valid() && old(outstanding) <= outstanding
      ensures delivered == old(delivered) && published == old(published) && draining == old(draining)
      ensures s == OK ==>
        && MakeTimestamp(timestampUs).Some? && configured
        && queued == old(queued) + [FrameMeta(MakeTimestamp(timestampUs).value, frameIndex)]
        && currentBitrate == bitrate
      ensures s != OK ==> queued == old(queued)
      ensures s != Corrupted ==> faulted == old(faulted)
      ensures old(configured) ==> configured
    {
      hide Valid, MakeTimestamp;
      if input.owner.None? || !input.graphic || settings.None? {
        return BadValue;
      }
      var timestamp := MakeTimestamp(timestampUs);
      if timestamp.None? || !input.blocks {
        return BadValue;
      }
      var slot := 0;
      if configured {
        s, slot := Backpressure();
        if s != OK {
          return;
        }
      }
      var layout, converted;
      s, layout, converted := ImportInput(input);
      if s != OK {
        return;
      }
      if !configured {
        s := ConfigureFor(layout, bitrate);
        if s != OK {
          return;
        }
        slot := 0;
      }
      if layout.stride != rawStride || layout.totalSize < rawSize {
        return BadValue;
      }
      s := ApplySettings(bitrate, requestSync);
      if s != OK {
        return;
      }
      s := Submit(slot, if converted.None? then input.owner else None, converted, FrameMeta(timestamp.value, frameIndex));
    }

    /** The first frame decides the bitrate the session starts with. */
    method ConfigureFor(layout: Layout, bitrate: uint32) returns (s: Status)
      requires Valid() && !configured && settings.Some?
      modifies this`settings, this`configured, this`inputs, this`captureLengths, this`currentBitrate,
               this`effectiveBitrate, this`peakBitrate, this`rawStride, this`rawSize, this`holder, this`stream, device
      ensures Valid() && configured == (s == OK)
      ensures s == OK ==> |inputs| > 0 && metadata == [] && !inputs[0].queued
    {
      hide Books, Undropped, SlotsAccounted, NotStarted, LevelChosen, InputsHeld;
      settings := Some(settings.value.(bitrate := bitrate));
      s := ConfigureEncoder(layout);
    }

    /** Follows a changed bitrate and asks for a key frame. */
    method ApplySettings(bitrate: uint32, requestSync: bool) returns (s: Status)
      requires Valid() && configured
      modifies this`currentBitrate, this`effectiveBitrate, this`peakBitrate
      ensures Valid() && (s == OK ==> currentBitrate == bitrate)
    {
      hide Books, Undropped, SlotsAccounted, LevelChosen, InputsHeld;
      s := OK;
      if bitrate != currentBitrate {
        s := SetEncoderBitrate(bitrate);
      }
      if s == OK && requestSync {
        s := *;
      }
    }

    /** Hands an image to the kernel; its slot keeps it alive and its index is recorded. */
    method Submit(slot: nat, owner: Option<BufferId>, converted: Option<BufferId>, m: FrameMeta) returns (s: Status)
      requires Valid() && configured && slot < |inputs| && !inputs[slot].queued && |metadata| < |inputs|
      requires owner.Some? != converted.Some?
      modifies this`inputs, this`metadata, this`queued, device`ownedInputs
      ensures Valid() && (s == OK || s == Corrupted)
      ensures s == OK ==> queued == old(queued) + [m] && inputs == old(inputs)[slot := InputSlot(owner, converted, true)]
      ensures s != OK ==> queued == old(queued) && inputs == old(inputs)
    {
      hide Books, Undropped, SlotsAccounted, LevelChosen;
      var ok := device.QueueInput(slot);
      if !ok {
        return Corrupted;
      }
      QueueBooks(queued, published, outstanding, metadata, pending, delivered, m);
      metadata := metadata + [m];
      queued := queued + [m];
      inputs := inputs[slot := InputSlot(owner, converted, true)];
      return OK;
    }

    // ----- output -----

    /** Copies the front entry into a block of its own and only then returns its slot. Any
        failure leaves the entry and its slot as they were. */
    method CopyEncoderFrame(pool: Pool) returns (s: Status, output: Option<EncodedFrame>)
      requires Valid() && pending != []
      modifies this`pending, this`outstanding, this`published, this`delivered, this`holder,
               device`memory, device`ownedCapture
      ensures Valid()
      ensures s == OK ==> Handed(output, old(outstanding), old(published), old(delivered))
      ensures s != OK ==>
        && output == None && pending == old(pending) && outstanding == old(outstanding)
        && delivered == old(delivered) && published == old(published) && holder == old(holder)
    {
      hide Books, SlotsAccounted, NotStarted, Undropped, InputsHeld, LevelChosen;
      var entry := pending[0];
      FrontEntry(queued, published, outstanding, metadata, pending, delivered);
      var block: Option<seq<byte>> := None;
      if entry.frame.size != 0 {
        if pool.NoPool? {
          return NoInit, None;
        }
        if pool.fetched != OK {
          return pool.fetched, None;
        }
        if pool.mapped != OK {
          return pool.mapped, None;
        }
        if pool.capacity < entry.frame.size {
          return Corrupted, None;
        }
        FrontStarted(outstanding, metadata, queued, published, device.given, device.ownedInputs, faulted, configured);
        FrontIntact(captureLengths, holder, device.ownedCapture, outstanding, device.memory, faulted);
        block := Some(device.memory[entry.captureIndex][entry.dataOffset..entry.dataOffset + entry.frame.size]);
      }
      s := ReturnFront(entry);
      output := if s == OK then Some(entry.frame.(block := block)) else None;
    }

    /** The caller has the front frame, and it has left the queue. */
    ghost predicate Handed(output: Option<EncodedFrame>, outstandingBefore: seq<Produced>,
                           publishedBefore: seq<Produced>, deliveredBefore: seq<EncodedFrame>)
      reads this`outstanding, this`published, this`delivered
    {
      && outstandingBefore != [] && output == Some(outstandingBefore[0].Delivered())
      && outstanding == outstandingBefore[1..] && published == publishedBefore + [outstandingBefore[0]]
      && delivered == deliveredBefore + [output.value]
    }

    /** Requeues the slot of the front entry, unless it ends the stream, and pops the entry. */
    method ReturnFront(entry: PendingFrame) returns (s: Status)
      requires Valid() && pending != [] && entry == pending[0] && outstanding != [] && entry == outstanding[0].Pending()
      modifies this`pending, this`outstanding, this`published, this`delivered, this`holder,
               device`memory, device`ownedCapture
      ensures Valid()
      ensures s == OK ==> Handed(Some(old(outstanding)[0].Delivered()), old(outstanding), old(published), old(delivered))
      ensures s != OK ==>
        && pending == old(pending) && outstanding == old(outstanding)
        && delivered == old(delivered) && published == old(published) && holder == old(holder)
    {
      hide Books, SlotsAccounted, NotStarted, Undropped, InputsHeld, LevelChosen;
      ghost var newHolder;
      s, newHolder := ReleaseFront(entry);
      if s != OK {
        return;
      }
      PopBooks(queued, published, outstanding, metadata, pending, delivered);
      PopUndropped(faulted, published, outstanding, device.given);
      pending := pending[1..];
      HandOut(newHolder);
    }

    /** The ghost side of handing out the front entry. */
    ghost method HandOut(h: seq<Holder>)
      requires outstanding != []
      modifies this`outstanding, this`published, this`delivered, this`holder
      ensures holder == h && outstanding == old(outstanding)[1..]
      ensures published == old(published) + [old(outstanding)[0]]
      ensures delivered == old(delivered) + [old(outstanding)[0].Delivered()]
    {
      var front := outstanding[0];
      holder, outstanding, published := h, outstanding[1..], published + [front];
      delivered := delivered + [front.Delivered()];
    }

    /** Requeues the front slot, unless its entry ends the stream; `h` says who holds it then. */
    method ReleaseFront(entry: PendingFrame) returns (s: Status, ghost h: seq<Holder>)
      requires Valid() && outstanding != [] && entry == outstanding[0].Pending()
      modifies device`memory, device`ownedCapture
      ensures s == OK && configured ==>
        SlotsAccounted(captureLengths, h, device.ownedCapture, outstanding[1..], device.memory, faulted)
      ensures s == OK && !configured ==>
        NotStarted(metadata, queued, outstanding[1..], published + [outstanding[0]], device.given, device.ownedInputs, faulted)
      ensures s != OK ==> Valid()
    {
      hide Books, SlotsAccounted, NotStarted, Undropped, InputsHeld, LevelChosen;
      h := holder;
      FrontStarted(outstanding, metadata, queued, published, device.given, device.ownedInputs, faulted, configured);
      ghost var before, owned := device.memory, device.ownedCapture;
      if !entry.frame.endOfStream {
        var ok := device.QueueCapture(entry.captureIndex);
        if !ok {
          StillAccounted(captureLengths, holder, owned, outstanding, before, device.memory, faulted);
          return Corrupted, h;
        }
        RequeueAccounted(captureLengths, holder, owned, outstanding, before, device.memory, faulted);
        h := holder[entry.captureIndex := Kernel];
      } else if configured {
        RetireAccounted(captureLengths, holder, owned, outstanding, device.memory, faulted);
        if outstanding[0].Real? {
          h := holder[entry.captureIndex := Retired];
        }
      } else {
        PopNotStarted(metadata, queued, outstanding, published, device.given, device.ownedInputs, faulted);
      }
      s := OK;
    }

    /** Delivers the next encoded frame, pumping the device when none waits. */
    method DequeueEncoderFrame(pool: Pool, wait: bool, monitorFailed: bool) returns (s: Status, output: Option<EncodedFrame>)
      requires Valid()
      modifies this`inputs, this`metadata, this`pending, this`outstanding, this`published, this`delivered,
               this`holder, this`faulted, device
      ensures Valid()
      ensures s == OK ==>
        && output.Some? && |published| == |old(published)| + 1 && old(published) <= published
        && output.value == published[|old(published)|].Delivered()
        && delivered == old(delivered) + [output.value]
      ensures s != OK ==> output == None && delivered == old(delivered) && published == old(published)
      ensures old(published + outstanding) <= published + outstanding
      ensures s != Corrupted ==> faulted == old(faulted)
      ensures s == NotFound && pending == [] && configured ==> device.inputEmpty && device.captureEmpty
    {
      hide Valid;
      if monitorFailed {
        return Corrupted, None;
      }
      if pending == [] {
        if !configured {
          return NotFound, None;
        }
        ghost var before := outstanding;
        s := PumpForOutput(wait);
        PrefixGrows(published, before, outstanding);
        if s != OK {
          return s, None;
        }
        if pending == [] {
          return NotFound, None;
        }
      }
      ghost var p, o := published, outstanding;
      s, output := CopyEncoderFrame(pool);
      if s == OK {
        HandedKeeps(p, o, published, outstanding);
      }
    }

    /** Pumps, and pumps again after waiting when nothing came out. */
    method PumpForOutput(wait: bool) returns (s: Status)
      requires Valid() && configured && pending == []
      modifies this`inputs, this`metadata, this`pending, this`outstanding, this`holder, this`faulted, device
      ensures Valid() && old(outstanding) <= outstanding
      ensures s != Corrupted ==> faulted == old(faulted)
      ensures s == Corrupted || s == TimedOut || (s == OK && device.inputEmpty && device.captureEmpty)
    {
      hide Valid;
      s := PumpEncoder();
      if s == OK && pending == [] && wait {
        s := *;
        if s != OK {
          return if s == TimedOut then TimedOut else Corrupted;
        }
        s := PumpEncoder();
      }
    }

    // ----- drain and epochs -----

    /** Asks the encoder to finish. Before the session started, an end of stream is queued at
        once and only once. */
    method StartEncoderDrain() returns (s: Status)
      requires Valid()
      modifies this`draining, this`pending, this`outstanding
      ensures Valid() && (s == OK ==> draining) && (s != OK ==> !draining)
      ensures outstanding == old(outstanding) + if !old(draining) && !configured then [Synthetic] else []
    {
      hide Books, SlotsAccounted, NotStarted, Buffers, Kept, InputsHeld, LevelChosen;
      if draining {
        return OK;
      }
      if !configured {
        SyntheticBooks(queued, published, outstanding, metadata, pending, delivered);
        SyntheticPush(published, outstanding);
        SyntheticNotStarted(metadata, queued, outstanding, published, device.given, device.ownedInputs, faulted);
        pending := pending + [PendingFrame(EncodedFrame(None, 0, 0, false, true), 0, 0)];
        outstanding := outstanding + [Synthetic];
        draining := true;
        return OK;
      }
      var ok := Succeeds();
      if !ok {
        return Corrupted;
      }
      draining := true;
      return OK;
    }

    /** Gives every buffer back and forgets the epoch. */
    method Close()
      requires Valid()
      modifies this, device
      ensures Fresh() && settings == old(settings)
    {
      hide Books, Undropped, SlotsAccounted, NotStarted, LevelChosen, InputsHeld;
      device.Release();
      ClearState();
      BeginEpoch();
      EmptyEpoch();
    }

    method ClearState()
      modifies this`venus, this`configured, this`draining, this`inputs, this`metadata, this`captureLengths,
               this`pending, this`currentBitrate, this`effectiveBitrate, this`peakBitrate, this`rawStride, this`rawSize
      ensures !venus && !configured && !draining && inputs == [] && metadata == [] && pending == []
    {
      venus, configured, draining := false, false, false;
      inputs, metadata, captureLengths, pending := [], [], [], [];
      currentBitrate, effectiveBitrate, peakBitrate, rawStride, rawSize := 0, 0, 0, 0, 0;
    }

    ghost method BeginEpoch()
      modifies this`queued, this`published, this`outstanding, this`delivered, this`holder, this`faulted, this`stream
      ensures queued == [] && published == [] && outstanding == [] && delivered == [] && !faulted
    {
      queued, published, outstanding, delivered := [], [], [], [];
      holder, faulted, stream := [], false, None;
    }

    /** The start of an epoch. */
    ghost predicate Fresh()
      reads this, device
    {
      && Valid() && !configured && !draining && !faulted
      && queued == [] && pending == [] && published == [] && outstanding == [] && delivered == []
    }

    method Open(opening: Option<Settings>, deviceStatus: Status, isVenus: bool) returns (s: Status)
      requires Valid()
      modifies this, device
      ensures Fresh() && (settings == old(settings) || settings == opening)
      ensures s == OK ==> settings == opening && Usable(opening) && venus == isVenus
      ensures deviceStatus == OK && !Usable(opening) ==> s == BadValue && settings == old(settings)
    {
      Close();
      if deviceStatus != OK {
        return deviceStatus;
      }
      venus := isVenus;
      if !Usable(opening) {
        return BadValue;
      }
      settings := opening;
      var converter: Status := *;
      if converter != OK {
        Close();
      }
      return converter;
    }

    method Flush(deviceStatus: Status, isVenus: bool) returns (s: Status)
      requires Valid()
      modifies this, device
      ensures Fresh() && settings == old(settings)
    {
      var kept := settings;
      Close();
      s := Open(kept, deviceStatus, isVenus);
    }
  }

  /** Whatever the session did in this epoch: every queued index is in the metadata list, waits in a
      non-empty pending frame or was delivered; for each time, indices came out in the order in which
      they were queued; and neither list outgrows its slots. */
  ghost predicate Accounts(session: Session)
    reads session
  {
    && multiset(Indices(session.queued)) == multiset(FrameIndices(session.delivered))
         + multiset(FrameIndices(Waiting(session.pending))) + multiset(Indices(session.metadata))
    && (forall t :: OfTime(Taken(session.published + session.outstanding), t) <= OfTime(session.queued, t))
    && |session.pending| == |session.outstanding|
    && (session.configured ==>
          |Buffers(session.outstanding)| <= |session.captureLengths| && |session.metadata| <= |session.inputs|)
  }

  lemma SessionAccounts(session: Session)
    requires session.Valid()
    ensures Accounts(session)
  {
    hide Conserved, Slots, Intact, Undropped, InputsHeld, LevelChosen, NotStarted, Indices, FrameIndices, Waiting, OfTime;
    hide Taken, Buffers;
    var s := session;
    IndexConservation(s.queued, s.published, s.outstanding, s.metadata, s.pending, s.delivered);
    forall t ensures OfTime(Taken(s.published + s.outstanding), t) <= OfTime(s.queued, t) {
      TakenIsPrefix(s.queued, Taken(s.published + s.outstanding), s.metadata, t);
    }
    if s.configured {
      QueueBounded(s.holder, s.device.ownedCapture, s.outstanding);
    }
  }

  function Lengths(memory: seq<seq<byte>>): (r: seq<nat>)
    ensures |r| == |memory| && forall i :: 0 <= i < |r| ==> r[i] == |memory[i]|
  {
    seq(|memory|, i requires 0 <= i < |memory| => |memory[i]|)
  }

  lemma LengthsKept(before: seq<seq<byte>>, after: seq<seq<byte>>, owned: set<nat>)
    requires WritesOnly(before, after, owned)
    ensures Lengths(before) == Lengths(after)
  {
  }

  lemma ResizedHeld(inputs: seq<InputSlot>, owned: set<nat>)
    requires InputsHeld(inputs, owned) && owned == {}
    ensures forall count :: InputsHeld(Resize(inputs, count), {})
    ensures forall count, i :: 0 <= i < count ==> !Resize(inputs, count)[i].queued
  {
  }

  lemma SyntheticIntact(memory: seq<seq<byte>>, outstanding: seq<Produced>)
    requires forall k :: 0 <= k < |outstanding| ==> outstanding[k].Synthetic?
    ensures Intact(memory, outstanding)
  {
  }

  /** `std::vector::resize` on slots that are all free. */
  function Resize(inputs: seq<InputSlot>, count: nat): (r: seq<InputSlot>)
    ensures |r| == count
  {
    if count <= |inputs| then inputs[..count] else inputs + seq(count - |inputs|, i => FREE_SLOT)
  }

  lemma SlotsInitial(holder: seq<Holder>, owned: set<nat>, outstanding: seq<Produced>)
    requires forall i :: 0 <= i < |holder| ==> holder[i] == Kernel
    requires forall i :: i in owned <==> 0 <= i < |holder|
    requires forall k :: 0 <= k < |outstanding| ==> outstanding[k].Synthetic?
    ensures Slots(holder, owned, outstanding)
  {
  }

  lemma TookEntry(metadata: seq<FrameMeta>, g: Given, frameIndex: nat, rest: seq<FrameMeta>)
    requires g.payload != []
    requires exists k ::
      0 <= k < |metadata| && metadata[k].timestamp == g.buffer.timestamp && frameIndex == metadata[k].frameIndex
      && rest == Without(metadata, k) && forall j :: 0 <= j < k ==> metadata[j].timestamp != g.buffer.timestamp
    ensures TookFor(metadata, Real(g, frameIndex), rest)
  {
    var k: nat :| k < |metadata| && metadata[k].timestamp == g.buffer.timestamp && frameIndex == metadata[k].frameIndex
      && rest == Without(metadata, k) && forall j :: 0 <= j < k ==> metadata[j].timestamp != g.buffer.timestamp;
    assert TookAt(metadata, k, Real(g, frameIndex).Consumed()[0], rest);
  }

  lemma TookNothing(metadata: seq<FrameMeta>, g: Given)
    requires g.payload == []
    ensures TookFor(metadata, Real(g, 0), metadata)
  {
  }

  lemma StillAccounted(lengths: seq<nat>, holder: seq<Holder>, owned: set<nat>, outstanding: seq<Produced>,
                       before: seq<seq<byte>>, after: seq<seq<byte>>, faulted: bool)
    requires SlotsAccounted(lengths, holder, owned, outstanding, before, faulted) && WritesOnly(before, after, owned)
    ensures SlotsAccounted(lengths, holder, owned, outstanding, after, faulted)
  {
    OutstandingNotOwned(holder, owned, outstanding);
    IntactAcross(before, after, owned, outstanding);
  }

  lemma SlotRange(lengths: seq<nat>, holder: seq<Holder>, owned: set<nat>, outstanding: seq<Produced>,
                  memory: seq<seq<byte>>, faulted: bool, i: nat)
    requires SlotsAccounted(lengths, holder, owned, outstanding, memory, faulted)
    ensures |lengths| == |memory| == |holder| && (i in owned ==> i < |memory|)
    ensures i < |memory| ==> lengths[i] == |memory[i]|
  {
  }

  lemma FaultAccounted(lengths: seq<nat>, holder: seq<Holder>, owned: set<nat>, outstanding: seq<Produced>,
                       memory: seq<seq<byte>>, faulted: bool)
    requires SlotsAccounted(lengths, holder, owned, outstanding, memory, faulted)
    ensures SlotsAccounted(lengths, holder, owned, outstanding, memory, true)
  {
  }

  lemma LostAccounted(lengths: seq<nat>, holder: seq<Holder>, owned: set<nat>, outstanding: seq<Produced>,
                      memory: seq<seq<byte>>, faulted: bool, i: nat)
    requires SlotsAccounted(lengths, holder, owned, outstanding, memory, faulted) && i in owned
    ensures i < |holder| && SlotsAccounted(lengths, holder[i := Lost], owned - {i}, outstanding, memory, true)
  {
    SlotsGiveUp(holder, owned, outstanding, i);
  }

  lemma PushAccounted(lengths: seq<nat>, holder: seq<Holder>, owned: set<nat>, outstanding: seq<Produced>,
                      memory: seq<seq<byte>>, faulted: bool, p: Produced)
    requires SlotsAccounted(lengths, holder, owned, outstanding, memory, faulted)
    requires p.Real? && p.given.buffer.index in owned && Preserved(memory, p.given)
    ensures var i := p.given.buffer.index;
      i < |holder| && SlotsAccounted(lengths, holder[i := Queue], owned - {i}, outstanding + [p], memory, faulted)
  {
    SlotsPush(holder, owned, outstanding, p);
    IntactPush(memory, outstanding, p);
  }

  lemma PushBooks(queued: seq<FrameMeta>, published: seq<Produced>, outstanding: seq<Produced>,
                  metadata: seq<FrameMeta>, pending: seq<PendingFrame>, delivered: seq<EncodedFrame>, p: Produced,
                  rest: seq<FrameMeta>)
    requires Books(queued, published, outstanding, metadata, pending, delivered) && TookFor(metadata, p, rest)
    ensures Books(queued, published, outstanding + [p], rest, pending + [p.Pending()], delivered)
    ensures |rest| <= |metadata|
  {
    ConservedPush(queued, published, outstanding, metadata, p, rest);
    PendingPush(pending, outstanding, p);
  }

  lemma PreservedSnapshot(memory: seq<seq<byte>>, b: CaptureBuffer)
    requires b.index < |memory| && b.dataOffset <= b.bytesUsed <= |memory[b.index]|
    ensures Preserved(memory, Given(b, Snapshot(memory, b)))
    ensures |Snapshot(memory, b)| == b.bytesUsed - b.dataOffset
  {
  }

  lemma PendingImage(memory: seq<seq<byte>>, b: CaptureBuffer, frameIndex: nat)
    requires Preserved(memory, Given(b, Snapshot(memory, b)))
    ensures Real(Given(b, Snapshot(memory, b)), frameIndex).Pending()
         == PendingFrame(EncodedFrame(None, b.bytesUsed - b.dataOffset, frameIndex, b.keyFrame, b.last), b.index, b.dataOffset)
  {
  }

  /** What the level a running AVC session advertised means for the bitrate in force. The frame it was
      chosen for covers the settings and the stride. It admits that frame, its rate and the bitrate on
      unbounded integers if and only if the driver reported no dimension within 15 of 2^32 and the
      bitrate is within the level's own limit, which on Venus it always is. */
  ghost predicate LevelHolds(session: Session)
    reads session
  {
    && session.settings.Some? && session.stream.Some?
    && var settings, stream := session.settings.value, session.stream.value;
    && session.rawStride <= stream.width && settings.width <= stream.width && settings.height <= stream.height
    && stream.level < |H264Level.LEVEL_LIMITS|
    && var limit := H264Level.LEVEL_LIMITS[stream.level].bitrateKbps;
    && (session.venus ==>
          && session.effectiveBitrate <= stream.bound
          && H264Level.Kbps(session.effectiveBitrate, settings.profile) <= limit)
    && (H264Level.Admits(stream.level, stream.width, stream.height, settings.frameRate, session.effectiveBitrate,
                         settings.profile) <==>
          && H264Level.NoWrap(stream.width) && H264Level.NoWrap(stream.height)
          && H264Level.Kbps(session.effectiveBitrate, settings.profile) <= limit)
  }

  lemma SessionLevelHolds(session: Session)
    requires session.Valid() && session.configured && session.avc
    ensures LevelHolds(session)
  {
    hide Books, Undropped, SlotsAccounted, InputsHeld, H264Level.FindMinimumLevel, H264Level.Admits, H264Level.Kbps;
    var settings, stream := session.settings.value, session.stream.value;
    H264Level.ChosenLevelAdmits(stream.width, stream.height, settings.frameRate, stream.bound, settings.profile,
                                session.effectiveBitrate);
  }

  // ----- whole runs -----

  datatype Command =
    | OpenWith(opening: Option<Settings>, deviceStatus: Status, isVenus: bool)
    | QueueFrame(input: Input, frameIndex: nat, timestampUs: int, requestSync: bool, bitrate: uint32)
    | DequeueFrame(pool: Pool, wait: bool, monitorFailed: bool)
    | SetBitrate(rate: uint32)
    | StartDrain
    | FlushAll(flushStatus: Status, flushVenus: bool)
    | CloseAll

  lemma NothingDropped(session: Session)
    requires session.Valid() && !session.faulted
    ensures Buffers(session.published + session.outstanding) == Kept(session.device.given)
  {
  }

  predicate BeginsEpoch(command: Command) {
    command.OpenWith? || command.FlushAll? || command.CloseAll?
  }

  /** Whatever the caller does, in any order and also after failed calls, and whatever the driver
      answers, the books stay balanced and every slot stays accounted for. Unless a call of the epoch
      reported corruption, nothing the driver gave in it was dropped or reordered. */
  method AnyRun(session: Session, commands: seq<Command>) returns (statuses: seq<Status>)
    requires session.Valid()
    modifies session, session.device
    ensures session.Valid() && Accounts(session) && |statuses| == |commands|
    ensures session.configured && session.avc ==> LevelHolds(session)
    ensures Uncorrupted(statuses, EpochStart(commands, BeginsEpoch)) ==>
      || (old(session.faulted) && EpochStart(commands, BeginsEpoch) == 0)
      || (!session.faulted && Buffers(session.published + session.outstanding) == Kept(session.device.given))
  {
    hide Session.Valid, EpochStart, Uncorrupted, BeginsEpoch, Accounts, LevelHolds, Buffers, Kept;
    statuses := [];
    for k := 0 to |commands|
      invariant session.Valid() && |statuses| == k
      invariant session.faulted && Uncorrupted(statuses, EpochStart(commands[..k], BeginsEpoch)) ==>
        old(session.faulted) && EpochStart(commands[..k], BeginsEpoch) == 0
    {
      var s := RunCommand(session, commands[k]);
      assert commands[..k + 1] == commands[..k] + [commands[k]];
      EpochGrows(commands[..k], BeginsEpoch, commands[k], statuses, s);
      statuses := statuses + [s];
    }
    assert commands[..|commands|] == commands;
    SessionAccounts(session);
    if !session.faulted {
      NothingDropped(session);
    }
    if session.configured && session.avc {
      SessionLevelHolds(session);
    }
  }

  method RunCommand(session: Session, command: Command) returns (s: Status)
    requires session.Valid()
    modifies session, session.device
    ensures session.Valid()
    ensures session.faulted ==> !BeginsEpoch(command) && (old(session.faulted) || s == Corrupted)
  {
    hide Session.Valid;
    s := OK;
    match command
    case OpenWith(opening, deviceStatus, isVenus) => s := session.Open(opening, deviceStatus, isVenus);
    case QueueFrame(input, frameIndex, timestampUs, requestSync, bitrate) =>
      s := session.QueueEncoderFrame(input, frameIndex, timestampUs, requestSync, bitrate);
    case DequeueFrame(pool, wait, monitorFailed) =>
      var output;
      s, output := session.DequeueEncoderFrame(pool, wait, monitorFailed);
    case SetBitrate(rate) =>
      if session.configured { s := session.ApplySettings(rate, false); }
    case StartDrain => s := session.StartEncoderDrain();
    case FlushAll(flushStatus, flushVenus) => s := session.Flush(flushStatus, flushVenus);
    case CloseAll => session.Close();
  }

  function Indices(frames: seq<FrameMeta>): seq<nat> {
    seq(|frames|, k requires 0 <= k < |frames| => frames[k].frameIndex)
  }

  /** The indices of the non-empty frames. */
  function FrameIndices(frames: seq<EncodedFrame>): seq<nat> {
    if frames == [] then []
    else (if frames[0].size != 0 then [frames[0].frameIndex] else []) + FrameIndices(frames[1..])
  }

  function Waiting(pending: seq<PendingFrame>): seq<EncodedFrame> {
    seq(|pending|, k requires 0 <= k < |pending| => pending[k].frame)
  }

  lemma {:induction false} DeliveredIndices(delivered: seq<EncodedFrame>, published: seq<Produced>)
    requires |delivered| == |published|
    requires forall k :: 0 <= k < |delivered| ==> delivered[k].(block := None) == published[k].Frame(None)
    ensures FrameIndices(delivered) == Indices(Taken(published))
  {
    if delivered != [] {
      DeliveredIndices(delivered[1..], published[1..]);
      IndicesConcat(published[0].Consumed(), Taken(published[1..]));
    }
  }

  lemma IndicesConcat(a: seq<FrameMeta>, b: seq<FrameMeta>)
    ensures Indices(a + b) == Indices(a) + Indices(b)
  {
  }

  lemma IndicesWithout(a: seq<FrameMeta>, k: nat)
    requires k < |a|
    ensures multiset(Indices(a)) == multiset{a[k].frameIndex} + multiset(Indices(Without(a, k)))
  {
    CutAt(a, k);
    var x, y := a[..k], a[k + 1..];
    IndicesConcat(x, [a[k]] + y);
    IndicesConcat([a[k]], y);
    IndicesConcat(x, y);
    assert Indices([a[k]]) == [a[k].frameIndex];
  }

  lemma Cancel(f: FrameMeta, a: multiset<FrameMeta>, b: multiset<FrameMeta>)
    requires multiset{f} + a == multiset{f} + b
    ensures a == b
  {
    assert a == multiset{f} + a - multiset{f};
    assert b == multiset{f} + b - multiset{f};
  }

  lemma {:induction false} SameIndices(a: seq<FrameMeta>, b: seq<FrameMeta>)
    requires multiset(a) == multiset(b)
    ensures multiset(Indices(a)) == multiset(Indices(b))
  {
    if a == [] {
      assert |multiset(b)| == 0;
    } else {
      assert a[0] in multiset(a);
      var k: nat :| k < |b| && b[k] == a[0];
      WithoutMultiset(b, k);
      WithoutMultiset(a, 0);
      Cancel(a[0], multiset(Without(a, 0)), multiset(Without(b, k)));
      assert Without(a, 0) == a[1..];
      SameIndices(a[1..], Without(b, k));
      IndicesWithout(a, 0);
      IndicesWithout(b, k);
    }
  }

  lemma {:induction false} TakenConcat(a: seq<Produced>, b: seq<Produced>)
    ensures Taken(a + b) == Taken(a) + Taken(b)
  {
    if b == [] {
      assert a + b == a;
    } else {
      var front := b[..|b| - 1];
      assert b == front + [b[|b| - 1]];
      assert a + b == (a + front) + [b[|b| - 1]];
      TakenConcat(a, front);
      TakenSnoc(a + front, b[|b| - 1]);
      TakenSnoc(front, b[|b| - 1]);
    }
  }

  /** Conservation: every queued frame index is in the metadata list, waits in a non-empty
      pending frame, or has been delivered, each exactly as often as it was queued. */
  lemma IndexConservation(queued: seq<FrameMeta>, published: seq<Produced>, outstanding: seq<Produced>,
                          metadata: seq<FrameMeta>, pending: seq<PendingFrame>, delivered: seq<EncodedFrame>)
    requires Books(queued, published, outstanding, metadata, pending, delivered)
    ensures multiset(Indices(queued))
         == multiset(FrameIndices(delivered)) + multiset(FrameIndices(Waiting(pending))) + multiset(Indices(metadata))
    ensures |queued| == |FrameIndices(delivered)| + |FrameIndices(Waiting(pending))| + |metadata|
  {
    var taken := Taken(published + outstanding);
    TakenConcat(published, outstanding);
    CountedIndices(queued, taken, metadata);
    IndicesConcat(Taken(published), Taken(outstanding));
    ImagesIndices(pending, outstanding, delivered, published);
  }

  lemma CountedIndices(queued: seq<FrameMeta>, taken: seq<FrameMeta>, metadata: seq<FrameMeta>)
    requires Conserved(queued, taken, metadata)
    ensures multiset(Indices(queued)) == multiset(Indices(taken)) + multiset(Indices(metadata))
    ensures |queued| == |taken| + |metadata|
  {
    hide OfTime;
    assert multiset(queued) == multiset(taken + metadata);
    SameIndices(queued, taken + metadata);
    IndicesConcat(taken, metadata);
    assert |multiset(queued)| == |multiset(taken)| + |multiset(metadata)|;
  }

  lemma ImagesIndices(pending: seq<PendingFrame>, outstanding: seq<Produced>, delivered: seq<EncodedFrame>,
                      published: seq<Produced>)
    requires PendingAre(pending, outstanding) && DeliveredAre(delivered, published)
    ensures FrameIndices(delivered) == Indices(Taken(published))
    ensures FrameIndices(Waiting(pending)) == Indices(Taken(outstanding))
  {
    DeliveredIndices(delivered, published);
    DeliveredIndices(Waiting(pending), outstanding);
  }

  // ----- the front of the queue -----

  lemma FrontEntry(queued: seq<FrameMeta>, published: seq<Produced>, outstanding: seq<Produced>,
                   metadata: seq<FrameMeta>, pending: seq<PendingFrame>, delivered: seq<EncodedFrame>)
    requires Books(queued, published, outstanding, metadata, pending, delivered) && pending != []
    ensures outstanding != [] && pending[0] == outstanding[0].Pending()
  {
  }

  /** Only a started session has real entries. */
  lemma FrontStarted(outstanding: seq<Produced>, metadata: seq<FrameMeta>, queued: seq<FrameMeta>,
                     published: seq<Produced>, given: seq<Given>, ownedInputs: set<nat>, faulted: bool, configured: bool)
    requires outstanding != []
    requires !configured ==> NotStarted(metadata, queued, outstanding, published, given, ownedInputs, faulted)
    ensures !configured ==> outstanding[0].Synthetic?
  {
  }

  lemma FrontIntact(lengths: seq<nat>, holder: seq<Holder>, owned: set<nat>, outstanding: seq<Produced>,
                    memory: seq<seq<byte>>, faulted: bool)
    requires SlotsAccounted(lengths, holder, owned, outstanding, memory, faulted)
    requires outstanding != [] && outstanding[0].Real?
    ensures var e := outstanding[0].Pending();
      && e.captureIndex < |memory| && e.dataOffset + e.frame.size <= |memory[e.captureIndex]|
      && memory[e.captureIndex][e.dataOffset..e.dataOffset + e.frame.size] == outstanding[0].given.payload
  {
    assert Preserved(memory, outstanding[0].given);
  }

  lemma RequeueAccounted(lengths: seq<nat>, holder: seq<Holder>, owned: set<nat>, outstanding: seq<Produced>,
                         before: seq<seq<byte>>, after: seq<seq<byte>>, faulted: bool)
    requires SlotsAccounted(lengths, holder, owned, outstanding, before, faulted)
    requires outstanding != [] && outstanding[0].Real?
    requires WritesOnly(before, after, owned + {outstanding[0].given.buffer.index})
    ensures var i := outstanding[0].given.buffer.index;
      i < |holder| && SlotsAccounted(lengths, holder[i := Kernel], owned + {i}, outstanding[1..], after, faulted)
  {
    var i := outstanding[0].given.buffer.index;
    SlotsPop(holder, owned, outstanding, true);
    assert Intact(before, outstanding[1..]);
    OutstandingNotOwned(holder[i := Kernel], owned + {i}, outstanding[1..]);
    IntactAcross(before, after, owned + {i}, outstanding[1..]);
  }

  lemma RetireAccounted(lengths: seq<nat>, holder: seq<Holder>, owned: set<nat>, outstanding: seq<Produced>,
                        memory: seq<seq<byte>>, faulted: bool)
    requires SlotsAccounted(lengths, holder, owned, outstanding, memory, faulted) && outstanding != []
    ensures match outstanding[0]
      case Real(g, _) => g.buffer.index < |holder|
        && SlotsAccounted(lengths, holder[g.buffer.index := Retired], owned, outstanding[1..], memory, faulted)
      case Synthetic => SlotsAccounted(lengths, holder, owned, outstanding[1..], memory, faulted)
  {
    SlotsPop(holder, owned, outstanding, false);
    assert Intact(memory, outstanding[1..]);
  }

  lemma PopNotStarted(metadata: seq<FrameMeta>, queued: seq<FrameMeta>, outstanding: seq<Produced>,
                      published: seq<Produced>, given: seq<Given>, ownedInputs: set<nat>, faulted: bool)
    requires NotStarted(metadata, queued, outstanding, published, given, ownedInputs, faulted) && outstanding != []
    ensures NotStarted(metadata, queued, outstanding[1..], published + [outstanding[0]], given, ownedInputs, faulted)
  {
  }

  lemma PopBooks(queued: seq<FrameMeta>, published: seq<Produced>, outstanding: seq<Produced>,
                 metadata: seq<FrameMeta>, pending: seq<PendingFrame>, delivered: seq<EncodedFrame>)
    requires Books(queued, published, outstanding, metadata, pending, delivered) && pending != []
    ensures outstanding != []
    ensures Books(queued, published + [outstanding[0]], outstanding[1..], metadata, pending[1..],
                  delivered + [outstanding[0].Delivered()])
  {
    PendingPop(pending, outstanding, delivered, published);
    PopKeeps(published, outstanding);
  }

  lemma PopUndropped(faulted: bool, published: seq<Produced>, outstanding: seq<Produced>, given: seq<Given>)
    requires Undropped(faulted, published, outstanding, given) && outstanding != []
    ensures Undropped(faulted, published + [outstanding[0]], outstanding[1..], given)
  {
    PopKeeps(published, outstanding);
  }

  /** Delivering only moves the front entry from one side to the other. */
  lemma HandedKeeps(published: seq<Produced>, outstanding: seq<Produced>, published': seq<Produced>,
                    outstanding': seq<Produced>)
    requires outstanding != [] && published' == published + [outstanding[0]] && outstanding' == outstanding[1..]
    ensures published' + outstanding' == published + outstanding
  {
    PopKeeps(published, outstanding);
  }

  lemma PrefixGrows(published: seq<Produced>, before: seq<Produced>, after: seq<Produced>)
    requires before <= after
    ensures published + before <= published + after
  {
  }

  lemma EmptyEpoch()
    ensures InputsHeld([], {}) && Books([], [], [], [], [], []) && Undropped(false, [], [], [])
    ensures NotStarted([], [], [], [], [], {}, false)
  {
  }

  lemma QueueBooks(queued: seq<FrameMeta>, published: seq<Produced>, outstanding: seq<Produced>,
                   metadata: seq<FrameMeta>, pending: seq<PendingFrame>, delivered: seq<EncodedFrame>, m: FrameMeta)
    requires Books(queued, published, outstanding, metadata, pending, delivered)
    ensures Books(queued + [m], published, outstanding, metadata + [m], pending, delivered)
  {
    ConservedQueue(queued, Taken(published + outstanding), metadata, m);
  }

  lemma SyntheticBooks(queued: seq<FrameMeta>, published: seq<Produced>, outstanding: seq<Produced>,
                       metadata: seq<FrameMeta>, pending: seq<PendingFrame>, delivered: seq<EncodedFrame>)
    requires Books(queued, published, outstanding, metadata, pending, delivered)
    ensures Books(queued, published, outstanding + [Synthetic], metadata, pending + [Synthetic.Pending()], delivered)
  {
    PushBooks(queued, published, outstanding, metadata, pending, delivered, Synthetic, metadata);
  }

  lemma SyntheticNotStarted(metadata: seq<FrameMeta>, queued: seq<FrameMeta>, outstanding: seq<Produced>,
                            published: seq<Produced>, given: seq<Given>, ownedInputs: set<nat>, faulted: bool)
    requires NotStarted(metadata, queued, outstanding, published, given, ownedInputs, faulted)
    ensures NotStarted(metadata, queued, outstanding + [Synthetic], published, given, ownedInputs, faulted)
  {
  }
}
