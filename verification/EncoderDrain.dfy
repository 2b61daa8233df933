/** The encoder component's drain loop: one output is always held back so that the last one can be
    flagged, and the first complete one carries the codec configuration. */
module EncoderDrain {
  import opened Wrappers
  import opened Nal
  import opened CaptureLedger
  import opened V4l2
  import CodecConfig
  import EncoderSession

  /** A finished output: `config` is the initial codec configuration sent along with it. */
  datatype Output = Output(frameIndex: nat, payload: seq<byte>, keyFrame: bool, config: Option<seq<byte>>, endOfStream: bool)

  /** Frames with a payload, in order. */
  function NonEmpty(frames: seq<EncodedFrame>): seq<EncodedFrame> {
    if frames == [] then []
    else
      var last := frames[|frames| - 1];
      NonEmpty(frames[..|frames| - 1]) + if last.size != 0 then [last] else []
  }

  function Payload(f: EncodedFrame): seq<byte> {
    if f.block.Some? then f.block.value else []
  }

  /** Whether the configuration is settled after `f`. A codec without configuration settles at once. */
  function Settles(codec: Option<Codec>, f: EncodedFrame): bool {
    codec.None? || CodecConfig.Extract(codec.value, Payload(f)).Some?
  }

  function Make(codec: Option<Codec>, sent: bool, f: EncodedFrame): Output {
    Output(f.frameIndex, Payload(f), f.keyFrame,
           if sent || codec.None? then None else CodecConfig.Extract(codec.value, Payload(f)), false)
  }

  function SentAfter(codec: Option<Codec>, sent: bool, frames: seq<EncodedFrame>): bool {
    sent || (frames != [] && (SentAfter(codec, sent, frames[..|frames| - 1]) || Settles(codec, frames[|frames| - 1])))
  }

  function MakeAll(codec: Option<Codec>, sent: bool, frames: seq<EncodedFrame>): (outputs: seq<Output>)
    ensures |outputs| == |frames|
  {
    if frames == [] then []
    else
      var before := frames[..|frames| - 1];
      MakeAll(codec, sent, before) + [Make(codec, SentAfter(codec, sent, before), frames[|frames| - 1])]
  }

  /** The last output carries the end of the stream. */
  function Flagged(outputs: seq<Output>, endOfStream: bool): seq<Output> {
    if outputs == [] then []
    else outputs[..|outputs| - 1] + [outputs[|outputs| - 1].(endOfStream := endOfStream)]
  }

  function AllButLast(outputs: seq<Output>): (r: seq<Output>)
    ensures |r| == if outputs == [] then 0 else |outputs| - 1
  {
    if outputs == [] then [] else outputs[..|outputs| - 1]
  }

  // ----- what the published outputs are -----

  /** One output per frame: same order, index, payload and kind. */
  lemma {:induction false} OutputsMatch(codec: Option<Codec>, sent: bool, frames: seq<EncodedFrame>, i: nat)
    requires i < |frames|
    ensures var o := MakeAll(codec, sent, frames)[i];
      && o.frameIndex == frames[i].frameIndex && o.payload == Payload(frames[i]) && o.keyFrame == frames[i].keyFrame
      && !o.endOfStream
    decreases |frames|
  {
    if i < |frames| - 1 {
      OutputsMatch(codec, sent, frames[..|frames| - 1], i);
    }
  }

  /** At most one output carries the end of the stream, it is the last, and it does if and only if
      the end was seen. */
  lemma {:induction false} FlaggedExact(codec: Option<Codec>, sent: bool, frames: seq<EncodedFrame>, endOfStream: bool, i: nat)
    requires i < |frames|
    ensures var outputs := Flagged(MakeAll(codec, sent, frames), endOfStream);
      && |outputs| == |frames|
      && (outputs[i].endOfStream <==> endOfStream && i == |frames| - 1)
      && outputs[i].frameIndex == frames[i].frameIndex && outputs[i].payload == Payload(frames[i])
  {
    OutputsMatch(codec, sent, frames, i);
  }

  lemma {:induction false} SentExact(codec: Option<Codec>, sent: bool, frames: seq<EncodedFrame>)
    ensures SentAfter(codec, sent, frames) <==> sent || exists i :: 0 <= i < |frames| && Settles(codec, frames[i])
    decreases |frames|
  {
    hide Settles;
    if frames != [] {
      var before := frames[..|frames| - 1];
      SentExact(codec, sent, before);
      assert forall i :: 0 <= i < |before| ==> before[i] == frames[i];
    }
  }

  lemma {:induction false} MadeAt(codec: Option<Codec>, sent: bool, frames: seq<EncodedFrame>, i: nat)
    requires i < |frames|
    ensures MakeAll(codec, sent, frames)[i] == Make(codec, SentAfter(codec, sent, frames[..i]), frames[i])
    decreases |frames|
  {
    if i < |frames| - 1 {
      var before := frames[..|frames| - 1];
      MadeAt(codec, sent, before, i);
      assert before[..i] == frames[..i];
    }
  }

  /** The configuration goes out once: with the first frame that holds all of it. */
  lemma ConfigOnce(codec: Codec, frames: seq<EncodedFrame>, i: nat)
    requires i < |frames|
    ensures var config := MakeAll(Some(codec), false, frames)[i].config;
      && (config.Some? <==> Settles(Some(codec), frames[i]) && forall j :: 0 <= j < i ==> !Settles(Some(codec), frames[j]))
      && (config.Some? ==> config == CodecConfig.Extract(codec, Payload(frames[i])))
  {
    MadeAt(Some(codec), false, frames, i);
    SentExact(Some(codec), false, frames[..i]);
    assert forall j :: 0 <= j < i ==> frames[..i][j] == frames[j];
  }

  /** When an error drops the last output that was made, the configuration goes with it, and is taken as
      sent, exactly when the last frame is the first that holds all of it. */
  lemma ConfigDropped(codec: Codec, frames: seq<EncodedFrame>)
    requires frames != []
    ensures var made, last := MakeAll(Some(codec), false, frames), |frames| - 1;
      (SentAfter(Some(codec), false, frames) && forall i :: 0 <= i < last ==> made[i].config.None?)
      <==> (Settles(Some(codec), frames[last]) && forall i :: 0 <= i < last ==> !Settles(Some(codec), frames[i]))
  {
    hide Settles, SentAfter;
    SentExact(Some(codec), false, frames);
    if k :| 0 <= k < |frames| && Settles(Some(codec), frames[k]) {
      var first := FirstSettling(codec, frames, k);
      ConfigOnce(codec, frames, first);
    }
    forall i | 0 <= i < |frames| - 1
      ensures MakeAll(Some(codec), false, frames)[i].config.Some? ==> Settles(Some(codec), frames[i])
    {
      ConfigOnce(codec, frames, i);
    }
  }

  lemma {:induction false} FirstSettling(codec: Codec, frames: seq<EncodedFrame>, k: nat) returns (first: nat)
    requires k < |frames| && Settles(Some(codec), frames[k])
    ensures first <= k && Settles(Some(codec), frames[first])
    ensures forall j :: 0 <= j < first ==> !Settles(Some(codec), frames[j])
  {
    hide Settles;
    if j :| 0 <= j < k && Settles(Some(codec), frames[j]) {
      first := FirstSettling(codec, frames, j);
    } else {
      first := k;
    }
  }

  lemma NonEmptySnoc(frames: seq<EncodedFrame>, f: EncodedFrame)
    ensures NonEmpty(frames + [f]) == if f.size != 0 then NonEmpty(frames) + [f] else NonEmpty(frames)
  {
    assert (frames + [f])[..|frames|] == frames;
  }

  lemma MakeSnoc(codec: Option<Codec>, sent: bool, frames: seq<EncodedFrame>, f: EncodedFrame)
    ensures MakeAll(codec, sent, frames + [f]) == MakeAll(codec, sent, frames) + [Make(codec, SentAfter(codec, sent, frames), f)]
    ensures SentAfter(codec, sent, frames + [f]) == (SentAfter(codec, sent, frames) || Settles(codec, f))
  {
    assert (frames + [f])[..|frames|] == frames;
  }

  lemma {:induction false} NonEmptyConcat(a: seq<EncodedFrame>, b: seq<EncodedFrame>)
    ensures NonEmpty(a + b) == NonEmpty(a) + NonEmpty(b)
    decreases |b|
  {
    if b == [] {
      assert a + b == a;
    } else {
      hide NonEmpty;
      var c, f := b[..|b| - 1], b[|b| - 1];
      assert a + b == (a + c) + [f] && b == c + [f];
      NonEmptyConcat(a, c);
      NonEmptySnoc(a + c, f);
      NonEmptySnoc(c, f);
      assert NonEmpty(a) + NonEmpty(c) + [f] == NonEmpty(a) + (NonEmpty(c) + [f]);
    }
  }

  /** Where one drain stops and the next one goes on makes no difference to what is published. */
  lemma {:induction false} BatchesCompose(codec: Option<Codec>, sent: bool, a: seq<EncodedFrame>, b: seq<EncodedFrame>)
    ensures MakeAll(codec, sent, a + b) == MakeAll(codec, sent, a) + MakeAll(codec, SentAfter(codec, sent, a), b)
    ensures SentAfter(codec, sent, a + b) == SentAfter(codec, SentAfter(codec, sent, a), b)
    decreases |b|
  {
    hide Make, Settles;
    if b == [] {
      assert a + b == a;
    } else {
      var c, f := b[..|b| - 1], b[|b| - 1];
      assert a + b == (a + c) + [f];
      BatchesCompose(codec, sent, a, c);
      MakeSnoc(codec, sent, a + c, f);
    }
  }

  class Component {
    const session: EncoderSession.Session
    const codec: Option<Codec>
    var configSent: bool
    ghost var published: seq<Output>

    constructor (avc: bool, c: Option<Codec>)
      ensures session.Valid() && fresh(session) && fresh(session.device) && codec == c && !configSent && published == []
    {
      session := new EncoderSession.Session(avc);
      codec, configSent, published := c, false, [];
    }

    /** Wraps a frame; the first complete parameter sets become the initial configuration. */
    method MakeEncodedBuffer(f: EncodedFrame) returns (s: Status, output: Output)
      modifies this`configSent
      ensures f.block.None? || f.size == 0 ==> s == BadValue
      ensures s == OK ==>
        && output == Make(codec, old(configSent), f) && configSent == (old(configSent) || Settles(codec, f))
        && (f.keyFrame ==> configSent)
      ensures s != OK ==> configSent == old(configSent)
    {
      hide CodecConfig.Extract;
      output := Output(f.frameIndex, Payload(f), f.keyFrame, None, false);
      if f.block.None? || f.size == 0 { return BadValue, output; }
      if !configSent {
        if codec.None? {
          configSent := true;
          return OK, output;
        }
        var mapped: Status := *;
        if mapped != OK { return mapped, output; }
        var config := new ByteVector();
        var complete := CodecConfig.ExtractCodecConfig(codec.value, f.block, config);
        if complete {
          output := output.(config := Some(config.bytes));
          configSent := true;
        } else if f.keyFrame {
          return Corrupted, output;
        }
      }
      s := OK;
    }

    ghost method FinishOutput(output: Output)
      modifies this`published
      ensures published == old(published) + [output]
    {
      published := published + [output];
    }

    /** Of the frames that were wrapped, everything is published but the last. */
    ghost predicate OneBehind(before: seq<Output>, sent: bool, wrapped: seq<EncodedFrame>)
      reads this`published, this`configSent
    {
      && published == before + AllButLast(MakeAll(codec, sent, wrapped))
      && configSent == SentAfter(codec, sent, wrapped)
    }

    /** What the loop has published when it has taken the frames `taken`: all but the output it
        holds back. */
    ghost predicate Holding(before: seq<Output>, sent: bool, taken: seq<EncodedFrame>, pending: Option<Output>)
      reads this`published, this`configSent
    {
      var made := MakeAll(codec, sent, taken);
      && OneBehind(before, sent, taken)
      && (pending.Some? <==> made != []) && (pending.Some? ==> pending.value == made[|made| - 1])
    }

    lemma HeldBack(before: seq<Output>, sent: bool, taken: seq<EncodedFrame>, pending: Option<Output>)
      requires Holding(before, sent, taken, pending)
      ensures OneBehind(before, sent, taken)
    {
    }

    /** One more frame: the output held so far is finished, the new one is held. */
    method Advance(frame: EncodedFrame, pending: Option<Output>, ghost before: seq<Output>, ghost sent: bool,
                   ghost taken: seq<EncodedFrame>) returns (s: Status, next: Option<Output>)
      requires Holding(before, sent, taken, pending)
      modifies this`configSent, this`published
      ensures s == OK ==> Holding(before, sent, taken + [frame], next)
      ensures s != OK ==> OneBehind(before, sent, taken)
    {
      hide MakeAll, SentAfter, Make, Settles, AllButLast;
      MakeSnoc(codec, sent, taken, frame);
      ghost var made := MakeAll(codec, sent, taken);
      var output;
      s, output := MakeEncodedBuffer(frame);
      if s != OK { return s, None; }
      PublishHeld(before, made, output);
      if pending.Some? {
        FinishOutput(pending.value);
      }
      next := Some(output);
    }

    method FinishLast(pending: Option<Output>, endOfStream: bool, ghost before: seq<Output>, ghost sent: bool,
                      ghost taken: seq<EncodedFrame>)
      requires Holding(before, sent, taken, pending)
      modifies this`published
      ensures published == before + Flagged(MakeAll(codec, sent, taken), endOfStream)
      ensures configSent == SentAfter(codec, sent, taken)
    {
      hide MakeAll, SentAfter;
      Finishes(before, MakeAll(codec, sent, taken), endOfStream);
      if pending.Some? {
        FinishOutput(pending.value.(endOfStream := endOfStream));
      }
    }

    /** Publishes what the session has, one behind: an output is finished when the next one exists
        or the loop ends. `rounds` bounds the frames that come out during one call; running out of
        it is as if the session had no more. `frames` are the ones it handed out. An error drops the
        output that is held back; when a frame could not be wrapped, `unwrapped`, that one is lost too. */
    method DrainV4l2Encoder(draining: bool, rounds: nat)
      returns (s: Status, sawEos: bool, ghost frames: seq<EncodedFrame>, ghost unwrapped: Option<EncodedFrame>)
      requires session.Valid()
      modifies this`configSent, this`published, session, session.device
      ensures session.Valid() && session.delivered == old(session.delivered) + frames
      ensures sawEos == (frames != [] && frames[|frames| - 1].endOfStream) && OnlyLastEnds(frames)
      ensures s == OK ==>
        && published == old(published) + Flagged(MakeAll(codec, old(configSent), NonEmpty(frames)), sawEos)
        && configSent == SentAfter(codec, old(configSent), NonEmpty(frames))
      ensures s != OK && unwrapped.None? ==> OneBehind(old(published), old(configSent), NonEmpty(frames))
      ensures unwrapped.Some? ==>
        && s != OK && frames != [] && unwrapped.value == frames[|frames| - 1] && unwrapped.value.size != 0
        && OneBehind(old(published), old(configSent), NonEmpty(frames[..|frames| - 1]))
    {
      hide EncoderSession.Session.Valid, NonEmpty, MakeAll, SentAfter, Holding, OneBehind, OnlyLastEnds;
      var pending: Option<Output> := None;
      ghost var before, sent := published, configSent;
      sawEos, frames, s, unwrapped := false, [], OK, None;
      NothingHeld();
      NoneEnds();
      var left := rounds;
      while left > 0
        invariant session.Valid() && session.delivered == old(session.delivered) + frames
        invariant Holding(before, sent, NonEmpty(frames), pending) && s == OK && unwrapped == None
        invariant !sawEos && OnlyLastEnds(frames) && (frames != [] ==> !frames[|frames| - 1].endOfStream)
      {
        left := left - 1;
        var pool: EncoderSession.Pool, monitorFailed: bool := *, *;
        var status, dequeued := session.DequeueEncoderFrame(pool, draining && !sawEos, monitorFailed);
        if status == NotFound || status == Blocking { break; }
        if status != OK {
          HeldBack(before, sent, NonEmpty(frames), pending);
          return status, sawEos, frames, None;
        }
        var frame := dequeued.value;
        NonEmptySnoc(frames, frame);
        EndsSnoc(frames, frame);
        ghost var handed, taken := frames, NonEmpty(frames);
        frames := frames + [frame];
        sawEos := sawEos || frame.endOfStream;
        if frame.size != 0 {
          s, pending := Advance(frame, pending, before, sent, taken);
          if s != OK {
            unwrapped := Some(frame);
            assert frames[..|frames| - 1] == handed;
            return;
          }
        }
        if sawEos { break; }
      }
      FinishLast(pending, sawEos, before, sent, NonEmpty(frames));
    }

    lemma NothingHeld()
      ensures Holding(published, configSent, NonEmpty([]), None)
    {
    }
  }

  /** Nothing is taken after the end of the stream. */
  ghost predicate OnlyLastEnds(frames: seq<EncodedFrame>) {
    forall i :: 0 <= i < |frames| - 1 ==> !frames[i].endOfStream
  }

  lemma NoneEnds()
    ensures OnlyLastEnds([])
  {
  }

  lemma EndsSnoc(frames: seq<EncodedFrame>, f: EncodedFrame)
    requires OnlyLastEnds(frames) && (frames != [] ==> !frames[|frames| - 1].endOfStream)
    ensures OnlyLastEnds(frames + [f])
  {
  }

  lemma PublishHeld(before: seq<Output>, made: seq<Output>, output: Output)
    ensures before + AllButLast(made + [output]) ==
            if made == [] then before + AllButLast(made) else before + AllButLast(made) + [made[|made| - 1]]
  {
    if made != [] {
      assert AllButLast(made + [output]) == made;
      assert before + AllButLast(made) + [made[|made| - 1]] == before + made;
    }
  }

  lemma Finishes(before: seq<Output>, made: seq<Output>, endOfStream: bool)
    ensures made == [] ==> before + AllButLast(made) == before + Flagged(made, endOfStream)
    ensures made != [] ==>
      before + AllButLast(made) + [made[|made| - 1].(endOfStream := endOfStream)] == before + Flagged(made, endOfStream)
  {
  }
}
