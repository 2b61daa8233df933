/** What the encoder session may claim about its capture slots and its frame indices, stated on
    values: who holds a slot, which bytes a pending entry stands for, and where every queued
    frame index has gone. */
module CaptureLedger {
  import opened Wrappers
  import opened Nal
  import opened EncoderMetadata

  /** What `VIDIOC_DQBUF` reports about one capture buffer. */
  datatype CaptureBuffer = CaptureBuffer(
    index: nat, bytesUsed: nat, dataOffset: nat, timestamp: Timeval, keyFrame: bool, last: bool)

  /** A buffer together with the bytes of its slot at the moment it was dequeued. */
  datatype Given = Given(buffer: CaptureBuffer, payload: seq<byte>)

  datatype EncodedFrame = EncodedFrame(
    block: Option<seq<byte>>, size: nat, frameIndex: nat, keyFrame: bool, endOfStream: bool)

  datatype PendingFrame = PendingFrame(frame: EncodedFrame, captureIndex: nat, dataOffset: nat)

  /** An entry of the pending queue: a dequeued buffer, or the end of stream of a session that
      never started. */
  datatype Produced = Real(given: Given, frameIndex: nat) | Synthetic {
    function Frame(block: Option<seq<byte>>): EncodedFrame {
      match this
      case Real(g, i) => EncodedFrame(block, |g.payload|, i, g.buffer.keyFrame, g.buffer.last)
      case Synthetic => EncodedFrame(block, 0, 0, false, true)
    }

    /** The metadata entry that a non-empty frame used up. */
    function Consumed(): seq<FrameMeta> {
      if Real? && given.payload != [] then [FrameMeta(given.buffer.timestamp, frameIndex)] else []
    }

    /** The entry as it waits: no block yet. */
    function Pending(): PendingFrame {
      PendingFrame(Frame(None), if Real? then given.buffer.index else 0, if Real? then given.buffer.dataOffset else 0)
    }

    /** The frame as the caller gets it: the driver's bytes in a block of its own. */
    function Delivered(): EncodedFrame {
      Frame(if Real? && given.payload != [] then Some(given.payload) else None)
    }
  }

  predicate Keeps(g: Given) {
    g.payload != [] || g.buffer.last
  }

  /** The buffers that must come out, in the order the driver gave them. */
  function Kept(given: seq<Given>): seq<Given> {
    if given == [] then []
    else (if Keeps(given[0]) then [given[0]] else []) + Kept(given[1..])
  }

  function Buffers(produced: seq<Produced>): seq<Given> {
    if produced == [] then []
    else (if produced[0].Real? then [produced[0].given] else []) + Buffers(produced[1..])
  }

  /** The frame indices that left the metadata list, with the times they were found under. */
  function Taken(produced: seq<Produced>): seq<FrameMeta> {
    if produced == [] then []
    else produced[0].Consumed() + Taken(produced[1..])
  }

  lemma {:induction false} KeptSnoc(given: seq<Given>, g: Given)
    ensures Kept(given + [g]) == Kept(given) + if Keeps(g) then [g] else []
  {
    if given == [] {
      assert given + [g] == [g] && Kept([g][1..]) == [];
    } else {
      assert (given + [g])[1..] == given[1..] + [g] && (given + [g])[0] == given[0];
      KeptSnoc(given[1..], g);
      var head, tail := if Keeps(given[0]) then [given[0]] else [], if Keeps(g) then [g] else [];
      assert head + (Kept(given[1..]) + tail) == head + Kept(given[1..]) + tail;
    }
  }

  lemma {:induction false} BuffersSnoc(produced: seq<Produced>, p: Produced)
    ensures Buffers(produced + [p]) == Buffers(produced) + if p.Real? then [p.given] else []
  {
    if produced == [] {
      assert produced + [p] == [p] && Buffers([p][1..]) == [];
    } else {
      assert (produced + [p])[1..] == produced[1..] + [p] && (produced + [p])[0] == produced[0];
      BuffersSnoc(produced[1..], p);
      var head, tail := if produced[0].Real? then [produced[0].given] else [], if p.Real? then [p.given] else [];
      assert head + (Buffers(produced[1..]) + tail) == head + Buffers(produced[1..]) + tail;
    }
  }

  lemma {:induction false} TakenSnoc(produced: seq<Produced>, p: Produced)
    ensures Taken(produced + [p]) == Taken(produced) + p.Consumed()
  {
    if produced == [] {
      assert produced + [p] == [p] && Taken([p][1..]) == [];
    } else {
      assert (produced + [p])[1..] == produced[1..] + [p] && (produced + [p])[0] == produced[0];
      TakenSnoc(produced[1..], p);
      var head, tail := produced[0].Consumed(), p.Consumed();
      assert head + (Taken(produced[1..]) + tail) == head + Taken(produced[1..]) + tail;
    }
  }

  // ----- frame indices -----

  /** For every time, the indices that came out are a prefix of those queued, in queue order;
      nothing is lost or duplicated overall. */
  ghost predicate Conserved(queued: seq<FrameMeta>, taken: seq<FrameMeta>, metadata: seq<FrameMeta>) {
    && (forall t :: OfTime(queued, t) == OfTime(taken, t) + OfTime(metadata, t))
    && multiset(queued) == multiset(taken) + multiset(metadata)
  }

  lemma ConservedQueue(queued: seq<FrameMeta>, taken: seq<FrameMeta>, metadata: seq<FrameMeta>, m: FrameMeta)
    requires Conserved(queued, taken, metadata)
    ensures Conserved(queued + [m], taken, metadata + [m])
  {
    forall t ensures OfTime(queued + [m], t) == OfTime(taken, t) + OfTime(metadata + [m], t) {
      OfTimeConcat(queued, [m], t);
      OfTimeConcat(metadata, [m], t);
    }
  }

  lemma TakeAtTime(queued: seq<FrameMeta>, taken: seq<FrameMeta>, metadata: seq<FrameMeta>, k: nat, t: Timeval)
    requires OfTime(queued, t) == OfTime(taken, t) + OfTime(metadata, t) && k < |metadata|
    requires forall j :: 0 <= j < k ==> metadata[j].timestamp != metadata[k].timestamp
    ensures OfTime(queued, t) == OfTime(taken + [metadata[k]], t) + OfTime(Without(metadata, k), t)
  {
    OfTimeConcat(taken, [metadata[k]], t);
    OfTimeOne(metadata[k], t);
    TakeIsFifo(metadata, k, t);
    Associative(OfTime(taken, t), OfTime([metadata[k]], t), OfTime(Without(metadata, k), t));
  }

  lemma Associative(a: seq<nat>, b: seq<nat>, c: seq<nat>)
    ensures a + (b + c) == (a + b) + c
  {
  }

  lemma ConservedTake(queued: seq<FrameMeta>, taken: seq<FrameMeta>, metadata: seq<FrameMeta>, k: nat)
    requires Conserved(queued, taken, metadata) && k < |metadata|
    requires forall j :: 0 <= j < k ==> metadata[j].timestamp != metadata[k].timestamp
    ensures Conserved(queued, taken + [metadata[k]], Without(metadata, k))
  {
    forall t ensures OfTime(queued, t) == OfTime(taken + [metadata[k]], t) + OfTime(Without(metadata, k), t) {
      TakeAtTime(queued, taken, metadata, k, t);
    }
    WithoutMultiset(metadata, k);
  }

  /** A time is matched in queue order: what came out under it is a prefix of what went in. */
  lemma TakenIsPrefix(queued: seq<FrameMeta>, taken: seq<FrameMeta>, metadata: seq<FrameMeta>, t: Timeval)
    requires Conserved(queued, taken, metadata)
    ensures OfTime(taken, t) <= OfTime(queued, t)
  {
    assert OfTime(queued, t) == OfTime(taken, t) + OfTime(metadata, t);
  }

  // ----- capture slots -----

  /** Exactly one party holds each MMAP capture slot. */
  datatype Holder = Kernel | Queue | Retired | Lost

  ghost predicate Slots(holder: seq<Holder>, owned: set<nat>, outstanding: seq<Produced>) {
    && (forall i :: i in owned <==> 0 <= i < |holder| && holder[i] == Kernel)
    && (forall k :: 0 <= k < |outstanding| && outstanding[k].Real? ==>
          var i := outstanding[k].given.buffer.index; i < |holder| && holder[i] == Queue)
    && (forall j, k :: 0 <= j < k < |outstanding| && outstanding[j].Real? && outstanding[k].Real? ==>
          outstanding[j].given.buffer.index != outstanding[k].given.buffer.index)
    && (forall i :: 0 <= i < |holder| && holder[i] == Queue ==> exists k :: Holds(outstanding, k, i))
  }

  ghost predicate Holds(outstanding: seq<Produced>, k: nat, i: nat) {
    k < |outstanding| && outstanding[k].Real? && outstanding[k].given.buffer.index == i
  }

  /** The slot of every pending entry still has the bytes the driver wrote. */
  ghost predicate Intact(memory: seq<seq<byte>>, outstanding: seq<Produced>) {
    forall k :: 0 <= k < |outstanding| && outstanding[k].Real? ==> Preserved(memory, outstanding[k].given)
  }

  predicate Preserved(memory: seq<seq<byte>>, g: Given) {
    var b := g.buffer;
    && b.index < |memory| && b.dataOffset <= b.bytesUsed <= |memory[b.index]|
    && memory[b.index][b.dataOffset..b.bytesUsed] == g.payload
  }

  /** The driver only writes to slots it owns. */
  ghost predicate WritesOnly(before: seq<seq<byte>>, after: seq<seq<byte>>, owned: set<nat>) {
    && |before| == |after|
    && forall i :: 0 <= i < |before| ==> |before[i]| == |after[i]| && (i !in owned ==> before[i] == after[i])
  }

  lemma IntactAcross(before: seq<seq<byte>>, after: seq<seq<byte>>, owned: set<nat>, outstanding: seq<Produced>)
    requires WritesOnly(before, after, owned) && Intact(before, outstanding)
    requires forall k :: 0 <= k < |outstanding| && outstanding[k].Real? ==> outstanding[k].given.buffer.index !in owned
    ensures Intact(after, outstanding)
  {
    forall k | 0 <= k < |outstanding| && outstanding[k].Real? ensures Preserved(after, outstanding[k].given) {
      assert Preserved(before, outstanding[k].given);
    }
  }

  lemma OutstandingNotOwned(holder: seq<Holder>, owned: set<nat>, outstanding: seq<Produced>)
    requires Slots(holder, owned, outstanding)
    ensures forall k :: 0 <= k < |outstanding| && outstanding[k].Real? ==> outstanding[k].given.buffer.index !in owned
  {
  }

  /** A dequeued buffer that is kept moves from the kernel to the queue. */
  lemma SlotsPush(holder: seq<Holder>, owned: set<nat>, outstanding: seq<Produced>, p: Produced)
    requires Slots(holder, owned, outstanding) && p.Real? && p.given.buffer.index in owned
    ensures var i := p.given.buffer.index; Slots(holder[i := Queue], owned - {i}, outstanding + [p])
  {
    var i, out := p.given.buffer.index, outstanding + [p];
    var holder' := holder[i := Queue];
    forall s | 0 <= s < |holder'| && holder'[s] == Queue ensures exists k :: Holds(out, k, s) {
      if s == i {
        assert Holds(out, |outstanding|, i);
      } else {
        var k :| Holds(outstanding, k, s);
        assert Holds(out, k, s);
      }
    }
  }

  /** Without an entry in the queue, a dequeued slot is given up. */
  lemma SlotsGiveUp(holder: seq<Holder>, owned: set<nat>, outstanding: seq<Produced>, i: nat)
    requires Slots(holder, owned, outstanding) && i in owned
    ensures Slots(holder[i := Lost], owned - {i}, outstanding)
  {
  }

  /** Delivering the front entry hands its slot back to the kernel, or retires it. */
  lemma SlotsPop(holder: seq<Holder>, owned: set<nat>, outstanding: seq<Produced>, requeued: bool)
    requires Slots(holder, owned, outstanding) && outstanding != []
    ensures match outstanding[0]
      case Real(g, _) =>
        var i := g.buffer.index;
        Slots(holder[i := if requeued then Kernel else Retired], if requeued then owned + {i} else owned, outstanding[1..])
      case Synthetic => Slots(holder, owned, outstanding[1..])
  {
    var out := outstanding[1..];
    forall s: nat | s < |holder| && holder[s] == Queue && !Holds(outstanding, 0, s)
      ensures exists k :: Holds(out, k, s)
    {
      var k: nat :| Holds(outstanding, k, s);
      assert Holds(out, k - 1, s);
    }
  }

  /** The slots that the driver's entries stand for. */
  function SlotIndices(outstanding: seq<Produced>): seq<nat> {
    if outstanding == [] then []
    else (if outstanding[0].Real? then [outstanding[0].given.buffer.index] else []) + SlotIndices(outstanding[1..])
  }

  lemma {:induction false} SlotIndicesDistinct(outstanding: seq<Produced>, n: nat)
    requires forall k :: 0 <= k < |outstanding| && outstanding[k].Real? ==> outstanding[k].given.buffer.index < n
    requires forall j, k :: 0 <= j < k < |outstanding| && outstanding[j].Real? && outstanding[k].Real? ==>
      outstanding[j].given.buffer.index != outstanding[k].given.buffer.index
    ensures var s := SlotIndices(outstanding);
      && |s| == |Buffers(outstanding)|
      && (forall k :: 0 <= k < |s| ==> s[k] < n && exists j :: Holds(outstanding, j, s[k]))
      && (forall j, k :: 0 <= j < k < |s| ==> s[j] != s[k])
  {
    if outstanding != [] {
      var rest := outstanding[1..];
      SlotIndicesDistinct(rest, n);
      var r, s := SlotIndices(rest), SlotIndices(outstanding);
      forall k | 0 <= k < |r| ensures exists j :: Holds(outstanding, j, r[k]) && j > 0 {
        var j: nat :| Holds(rest, j, r[k]);
        assert Holds(outstanding, j + 1, r[k]);
      }
      assert outstanding[0].Real? ==> Holds(outstanding, 0, s[0]);
    }
  }

  /** The driver's buffers in the pending queue never outnumber the capture slots, whether or not an
      end of stream of a session that had not started waits among them. */
  lemma QueueBounded(holder: seq<Holder>, owned: set<nat>, outstanding: seq<Produced>)
    requires Slots(holder, owned, outstanding)
    ensures |Buffers(outstanding)| <= |holder|
  {
    SlotIndicesDistinct(outstanding, |holder|);
    DistinctBelow(SlotIndices(outstanding), |holder|);
  }

  lemma {:induction false} DistinctBelow(s: seq<nat>, n: nat)
    requires forall k :: 0 <= k < |s| ==> s[k] < n
    requires forall j, k :: 0 <= j < k < |s| ==> s[j] != s[k]
    ensures |s| <= n
  {
    if s != [] {
      assert s[0] < n;
      if n - 1 in s {
        var k :| 0 <= k < |s| && s[k] == n - 1;
        DistinctBelow(s[..k] + s[k + 1..], n - 1);
      } else {
        DistinctBelow(s, n - 1);
      }
    }
  }

  // ----- one more entry in the queue -----

  /** `rest` is `metadata` after the entry that `p` consumed, if any, was taken out. */
  ghost predicate TookFor(metadata: seq<FrameMeta>, p: Produced, rest: seq<FrameMeta>) {
    if p.Consumed() == [] then rest == metadata
    else exists k :: TookAt(metadata, k, p.Consumed()[0], rest)
  }

  ghost predicate TookAt(metadata: seq<FrameMeta>, k: nat, m: FrameMeta, rest: seq<FrameMeta>) {
    && k < |metadata| && metadata[k] == m && rest == Without(metadata, k)
    && forall j :: 0 <= j < k ==> metadata[j].timestamp != m.timestamp
  }

  lemma ConservedPush(queued: seq<FrameMeta>, published: seq<Produced>, outstanding: seq<Produced>,
                      metadata: seq<FrameMeta>, p: Produced, rest: seq<FrameMeta>)
    requires Conserved(queued, Taken(published + outstanding), metadata) && TookFor(metadata, p, rest)
    ensures Conserved(queued, Taken(published + (outstanding + [p])), rest) && |rest| <= |metadata|
  {
    assert published + (outstanding + [p]) == published + outstanding + [p];
    TakenSnoc(published + outstanding, p);
    var taken := Taken(published + outstanding);
    if p.Consumed() == [] {
      assert taken + p.Consumed() == taken;
    } else {
      var k: nat :| TookAt(metadata, k, p.Consumed()[0], rest);
      assert p.Consumed() == [metadata[k]];
      ConservedTake(queued, taken, metadata, k);
    }
  }

  lemma KeptPush(published: seq<Produced>, outstanding: seq<Produced>, given: seq<Given>, p: Produced, g: Given)
    requires Buffers(published + outstanding) == Kept(given)
    requires p.Real? && p.given == g && Keeps(g)
    ensures Buffers(published + (outstanding + [p])) == Kept(given + [g])
  {
    assert published + (outstanding + [p]) == published + outstanding + [p];
    BuffersSnoc(published + outstanding, p);
    KeptSnoc(given, g);
  }

  lemma SyntheticPush(published: seq<Produced>, outstanding: seq<Produced>)
    ensures Buffers(published + (outstanding + [Synthetic])) == Buffers(published + outstanding)
  {
    assert published + (outstanding + [Synthetic]) == published + outstanding + [Synthetic];
    BuffersSnoc(published + outstanding, Synthetic);
  }

  lemma PopKeeps(published: seq<Produced>, outstanding: seq<Produced>)
    requires outstanding != []
    ensures (published + [outstanding[0]]) + outstanding[1..] == published + outstanding
  {
  }

  lemma IntactPush(memory: seq<seq<byte>>, outstanding: seq<Produced>, p: Produced)
    requires Intact(memory, outstanding) && (p.Real? ==> Preserved(memory, p.given))
    ensures Intact(memory, outstanding + [p])
  {
  }

  // ----- the images the session keeps -----

  ghost predicate PendingAre(pending: seq<PendingFrame>, outstanding: seq<Produced>) {
    |pending| == |outstanding| && forall k :: 0 <= k < |pending| ==> pending[k] == outstanding[k].Pending()
  }

  ghost predicate DeliveredAre(delivered: seq<EncodedFrame>, published: seq<Produced>) {
    |delivered| == |published| && forall k :: 0 <= k < |delivered| ==> delivered[k] == published[k].Delivered()
  }

  lemma PendingPush(pending: seq<PendingFrame>, outstanding: seq<Produced>, p: Produced)
    requires PendingAre(pending, outstanding)
    ensures PendingAre(pending + [p.Pending()], outstanding + [p])
  {
  }

  lemma PendingPop(pending: seq<PendingFrame>, outstanding: seq<Produced>, delivered: seq<EncodedFrame>,
                   published: seq<Produced>)
    requires PendingAre(pending, outstanding) && DeliveredAre(delivered, published) && pending != []
    ensures outstanding != [] && pending[0] == outstanding[0].Pending()
    ensures PendingAre(pending[1..], outstanding[1..])
    ensures DeliveredAre(delivered + [outstanding[0].Delivered()], published + [outstanding[0]])
  {
  }
}
