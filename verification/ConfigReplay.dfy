/** The decoder component's codec configuration: which parameter sets are in force, and which
    access units carry them, over any history of work items, flushes and resets. */
module ConfigReplay {
  import opened Wrappers
  import opened Nal
  import opened V4l2
  import ConfigRecord
  import Normalize

  const DEFAULT_LENGTH_SIZE: byte := 4

  /** What happened to the component, as far as its configuration is concerned. `Emptied` is a session
      that was flushed behind the component's back: by a drain to the end of the stream, or by a flush
      of the component that failed. */
  datatype Event =
    | Stored(nals: seq<seq<byte>>)
    | Submitted(nals: seq<seq<byte>>)
    | Flushed
    | Emptied
    | Cleared

  /** The parameter sets in force, and whether the next access unit must carry them. */
  datatype Config = Config(nals: seq<seq<byte>>, waiting: bool)

  function Step(c: Config, e: Event): Config {
    match e
    case Stored(nals) => Config(if c.waiting then c.nals + nals else nals, true)
    case Submitted(_) => c.(waiting := false)
    case Flushed => c.(waiting := c.waiting || c.nals != [])
    case Emptied => c
    case Cleared => Config([], false)
  }

  function InForce(history: seq<Event>): Config {
    if history == [] then Config([], false)
    else Step(InForce(history[..|history| - 1]), history[|history| - 1])
  }

  /** The NAL units of an access unit's packet. */
  function Carried(c: Config, nals: seq<seq<byte>>): seq<seq<byte>> {
    if c.waiting then c.nals + nals else nals
  }

  /** The packets the session accepted, in order. */
  function Packets(history: seq<Event>): seq<seq<byte>> {
    if history == [] then []
    else
      var before, last := history[..|history| - 1], history[|history| - 1];
      Packets(before) + if last.Submitted? then [AnnexB(Carried(InForce(before), last.nals))] else []
  }

  lemma HistorySnoc(history: seq<Event>, e: Event)
    ensures InForce(history + [e]) == Step(InForce(history), e)
    ensures Packets(history + [e]) ==
            Packets(history) + if e.Submitted? then [AnnexB(Carried(InForce(history), e.nals))] else []
  {
    assert (history + [e])[..|history|] == history;
  }

  // ----- what a history means -----

  /** The NAL units of all configurations stored in a stretch of history. */
  function StoredNals(history: seq<Event>): seq<seq<byte>> {
    if history == [] then []
    else
      var last := history[|history| - 1];
      StoredNals(history[..|history| - 1]) + if last.Stored? then last.nals else []
  }

  /** `from` is where the configurations in force begin: the last one that was stored when nothing
      was waiting, with no reset since. */
  ghost predicate GroupStarts(history: seq<Event>, from: nat) {
    && from < |history| && history[from].Stored? && !InForce(history[..from]).waiting
    && forall i :: from < i < |history| ==>
         history[i] != Cleared && (history[i].Stored? ==> InForce(history[..i]).waiting)
  }

  lemma {:induction false} GroupInForce(history: seq<Event>, from: nat)
    requires GroupStarts(history, from)
    ensures InForce(history).nals == StoredNals(history[from..])
    decreases |history|
  {
    var before, last := history[..|history| - 1], history[|history| - 1];
    if from == |history| - 1 {
      assert history[from..] == [last] && [last][..0] == [];
    } else {
      assert forall i :: 0 <= i < |before| ==> before[..i] == history[..i];
      GroupInForce(before, from);
      assert history[from..][..|history| - from - 1] == before[from..];
      assert before == history[..|history| - 1];
    }
  }

  /** Configurations are never empty: the normaliser never succeeds with nothing. */
  ghost predicate NonEmptyConfigs(history: seq<Event>) {
    forall i :: 0 <= i < |history| && history[i].Stored? ==> history[i].nals != []
  }

  lemma {:induction false} WaitingHasConfig(history: seq<Event>)
    requires NonEmptyConfigs(history) && InForce(history).waiting
    ensures InForce(history).nals != []
    decreases |history|
  {
    var before, last := history[..|history| - 1], history[|history| - 1];
    if InForce(before).waiting {
      WaitingHasConfig(before);
    }
    assert last == history[|history| - 1];
  }

  /** The configurations in force are exactly those stored since the last one that found nothing
      waiting, in order. */
  lemma {:induction false} ConfigIsGroup(history: seq<Event>) returns (from: nat)
    requires NonEmptyConfigs(history) && InForce(history).nals != []
    ensures GroupStarts(history, from) && InForce(history).nals == StoredNals(history[from..])
    decreases |history|
  {
    var before, last := history[..|history| - 1], history[|history| - 1];
    assert forall i :: 0 <= i < |before| ==> before[..i] == history[..i] && before[i] == history[i];
    if last.Stored? && !InForce(before).waiting {
      from := |history| - 1;
    } else {
      if last.Stored? {
        WaitingHasConfig(before);
      }
      from := ConfigIsGroup(before);
    }
    GroupInForce(history, from);
  }

  /** A configuration, or a flush while one is in force, after which nothing was submitted. */
  ghost predicate Armed(history: seq<Event>, i: nat) {
    && i < |history|
    && (history[i].Stored? || (history[i].Flushed? && InForce(history[..i]).nals != []))
    && forall k :: i < k < |history| ==> !history[k].Submitted? && !history[k].Cleared?
  }

  lemma ArmedGrows(before: seq<Event>, e: Event, i: nat)
    requires i < |before|
    ensures Armed(before + [e], i) <==> Armed(before, i) && !e.Submitted? && !e.Cleared?
  {
    var history := before + [e];
    assert history[..i] == before[..i];
    assert history[|before|] == e;
    assert forall k :: 0 <= k < |before| ==> history[k] == before[k];
  }

  /** The next access unit carries the configuration if and only if a configuration or a flush came
      after the last one that was submitted: the first one does, later ones do not. */
  lemma {:induction false} WaitingExact(history: seq<Event>)
    ensures InForce(history).waiting <==> exists i :: Armed(history, i)
    decreases |history|
  {
    if history != [] {
      var before, last := history[..|history| - 1], history[|history| - 1];
      assert history == before + [last];
      WaitingExact(before);
      forall i | 0 <= i < |before| ensures Armed(history, i) <==> Armed(before, i) && !last.Submitted? && !last.Cleared? {
        ArmedGrows(before, last, i);
      }
      assert Armed(history, |before|) <==> last.Stored? || (last.Flushed? && InForce(before).nals != []);
    }
  }

  /** The decoder lost its parameter sets, and nothing was submitted since. The next access unit carries
      them exactly when they had not been sent before, or something armed them again afterwards. */
  lemma {:induction false} EmptiedExact(history: seq<Event>, i: nat)
    requires i < |history| && history[i].Emptied?
    requires forall k :: i < k < |history| ==> !history[k].Submitted? && !history[k].Cleared?
    ensures InForce(history).waiting <==> InForce(history[..i]).waiting || exists k :: k > i && Armed(history, k)
    decreases |history|
  {
    var before, last := history[..|history| - 1], history[|history| - 1];
    assert history == before + [last];
    if i == |before| {
      assert history[..i] == before;
    } else {
      EmptiedExact(before, i);
      assert before[..i] == history[..i];
      forall k: nat | k < |before| ensures Armed(history, k) <==> Armed(before, k) {
        ArmedGrows(before, last, k);
      }
      assert Armed(history, |before|) <==> last.Stored? || (last.Flushed? && InForce(before).nals != []);
    }
  }

  /** Draining to the end of the stream leaves a configuration in force that is not sent again. */
  lemma EmptiedExample(nals: seq<seq<byte>>, unit: seq<seq<byte>>)
    requires nals != []
    ensures var c := InForce([Stored(nals), Submitted(unit), Emptied]);
      c.nals == nals && !c.waiting && Carried(c, unit) == unit
  {
    HistorySnoc([], Stored(nals));
    HistorySnoc([Stored(nals)], Submitted(unit));
    HistorySnoc([Stored(nals), Submitted(unit)], Emptied);
    assert [] + [Stored(nals)] == [Stored(nals)];
    assert [Stored(nals)] + [Submitted(unit)] == [Stored(nals), Submitted(unit)];
    assert [Stored(nals), Submitted(unit)] + [Emptied] == [Stored(nals), Submitted(unit), Emptied];
  }

  /** A packet of canonical NAL units parses back to the configuration followed by the access unit. */
  lemma PacketReparses(codec: Codec, c: Config, nals: seq<seq<byte>>)
    requires nals != [] && AllCanonical(codec, c.nals) && AllCanonical(codec, nals) && Fits(Carried(c, nals))
    ensures ParseAnnexB(codec, AnnexB(Carried(c, nals))) == Some(if c.waiting then c.nals + nals else nals)
  {
    if c.waiting && c.nals != [] {
      AnnexBConcat(c.nals, nals);
      CanonicalConcat(codec, c.nals, nals);
    } else {
      assert [] + nals == nals;
      AnnexBRoundTrip(codec, nals);
    }
  }

  /** A work item, as far as the decoder's input goes. */
  datatype Work = Work(updates: seq<seq<byte>>, codecConfig: bool, input: Option<seq<byte>>, readable: bool, eos: bool)

  /** The history and the length size that a decoder has got to. */
  datatype Progress = Progress(history: seq<Event>, lengthSize: byte)

  function StoreOne(codec: Codec, p: Progress, data: seq<byte>): Progress {
    if data == [] then p
    else
      match Normalize.Parse(codec, data, p.lengthSize, true, true)
      case Some(parsed) => Progress(p.history + [Stored(parsed.nals)], parsed.lengthSize)
      case None => p
  }

  function StoreAll(codec: Codec, p: Progress, updates: seq<seq<byte>>): Progress {
    if updates == [] then p
    else StoreOne(codec, StoreAll(codec, p, updates[..|updates| - 1]), updates[|updates| - 1])
  }

  function SubmitOne(codec: Codec, p: Progress, data: seq<byte>): Progress {
    match Normalize.Parse(codec, data, p.lengthSize, false, true)
    case Some(parsed) => Progress(p.history + [Submitted(parsed.nals)], parsed.lengthSize)
    case None => p
  }

  /** What a work item that is processed without error leaves: all its configuration updates, then
      its buffer as a configuration or as an access unit. */
  function Handled(codec: Codec, p: Progress, work: Work): Progress {
    var stored := StoreAll(codec, p, work.updates);
    if work.input.None? || work.input.value == [] then stored
    else if work.codecConfig then StoreOne(codec, stored, work.input.value)
    else SubmitOne(codec, stored, work.input.value)
  }

  /** What a work item does, whether or not it succeeds: `stored` of its configuration updates, and all
      of it when there was no error. */
  predicate Effect(codec: Codec, work: Work, s: Status, before: Progress, after: Progress, stored: nat) {
    && stored <= |work.updates|
    && (s == OK ==> after == Handled(codec, before, work))
    && (s != OK ==>
          || after == Handled(codec, before, work)
          || after.history == StoreAll(codec, before, work.updates[..stored]).history)
  }

  lemma StoreAllSnoc(codec: Codec, p: Progress, updates: seq<seq<byte>>, k: nat)
    requires k < |updates|
    ensures StoreAll(codec, p, updates[..k + 1]) == StoreOne(codec, StoreAll(codec, p, updates[..k]), updates[k])
  {
    assert updates[..k + 1][..k] == updates[..k];
  }

  class Component {
    const codec: Codec
    var config: seq<byte>
    var configPending: bool
    var lengthSize: byte
    var signalledError: bool
    var signalledEos: bool
    ghost var history: seq<Event>
    ghost var packets: seq<seq<byte>>

    ghost predicate Valid()
      reads this
    {
      Books(codec, config, configPending, history, packets) && 1 <= lengthSize <= 4
    }

    constructor (c: Codec)
      ensures Valid() && codec == c && history == [] && lengthSize == DEFAULT_LENGTH_SIZE
    {
      codec := c;
      config, configPending, lengthSize, signalledError, signalledEos := [], false, DEFAULT_LENGTH_SIZE, false, false;
      history, packets := [], [];
    }

    method StoreDecoderConfig(data: seq<byte>) returns (s: Status)
      requires Valid()
      modifies this`config, this`configPending, this`lengthSize, this`history
      ensures Valid()
      ensures data == [] ==> s == OK && history == old(history) && lengthSize == old(lengthSize)
      ensures data != [] ==>
        match Normalize.Parse(codec, data, old(lengthSize), true, true)
        case None => s == Corrupted && history == old(history) && lengthSize == old(lengthSize)
        case Some(parsed) =>
          && (s == OK || s == NoMemory)
          && (s == OK ==> history == old(history) + [Stored(parsed.nals)] && lengthSize == parsed.lengthSize)
          && (s == NoMemory ==>
                history == old(history) && lengthSize == old(lengthSize) && !Fits(InForce(history).nals + parsed.nals))
    {
      hide Books;
      if data == [] { return OK; }
      var normalized := new ByteVector();
      var detected := new ConfigRecord.SizeBox(lengthSize);
      var ok := Normalize.NormalizeStream(codec, Some(data), lengthSize, normalized, detected, true);
      if !ok { return Corrupted; }
      ghost var nals := Normalize.Parse(codec, data, lengthSize, true, true).value.nals;
      Normalize.ParsedIsValid(codec, data, lengthSize, true, true);
      BooksPending(codec, config, configPending, history, packets);
      AnnexBConcat(InForce(history).nals, nals);
      if configPending && |config| > SIZE_MAX - |normalized.bytes| { return NoMemory; }
      BooksStore(codec, config, configPending, history, packets, nals);
      config := if configPending then config + normalized.bytes else normalized.bytes;
      history := history + [Stored(nals)];
      lengthSize := detected.value;
      configPending := true;
      s := OK;
    }

    /** All configurations that come with a work item, until one fails. */
    method ProcessDecoderConfigUpdates(updates: seq<seq<byte>>) returns (s: Status, ghost stored: nat)
      requires Valid()
      modifies this`config, this`configPending, this`lengthSize, this`history
      ensures Valid() && old(history) <= history && OnlyStored(old(history), history)
      ensures stored <= |updates| && (s == OK ==> stored == |updates|)
      ensures Progress(history, lengthSize)
           == StoreAll(codec, Progress(old(history), old(lengthSize)), updates[..stored])
    {
      hide Books, Fits, Normalize.Parse, StoreAll;
      s := OK;
      ghost var start := Progress(history, lengthSize);
      StoreNothing(codec, start);
      for k := 0 to |updates|
        invariant Valid() && old(history) <= history && OnlyStored(old(history), history) && s == OK
        invariant Progress(history, lengthSize) == StoreAll(codec, start, updates[..k])
      {
        StoreAllSnoc(codec, start, updates, k);
        s := StoreDecoderConfig(updates[k]);
        if s != OK { return s, k; }
      }
      stored := |updates|;
    }

    /** The bytes handed to the session, unless they would not fit. */
    method MakePacket(normalized: seq<byte>, ghost nals: seq<seq<byte>>) returns (ok: bool, packet: seq<byte>)
      requires Valid() && normalized == AnnexB(nals)
      ensures ok ==> packet == AnnexB(Carried(InForce(history), nals))
      ensures !ok ==> configPending && !Fits(InForce(history).nals + nals)
    {
      hide Books, AnnexB;
      BooksPending(codec, config, configPending, history, packets);
      AnnexBConcat(InForce(history).nals, nals);
      if configPending && config != [] {
        if |config| > SIZE_MAX - |normalized| { return false, []; }
        return true, config + normalized;
      }
      EmptyPrefix(config, normalized);
      return true, normalized;
    }

    /** One access unit: it carries the waiting configuration exactly when it is accepted. */
    method SubmitAccessUnit(data: seq<byte>) returns (s: Status)
      requires Valid() && data != []
      modifies this`configPending, this`lengthSize, this`history, this`packets
      ensures Valid()
      ensures match Normalize.Parse(codec, data, old(lengthSize), false, true)
        case None => s == Corrupted && history == old(history) && packets == old(packets) && lengthSize == old(lengthSize)
        case Some(parsed) =>
          && lengthSize == parsed.lengthSize
          && (s == OK ==>
                && history == old(history) + [Submitted(parsed.nals)]
                && packets == old(packets) + [AnnexB(Carried(InForce(old(history)), parsed.nals))])
          && (s != OK ==> history == old(history) && packets == old(packets))
    {
      hide Books;
      var normalized := new ByteVector();
      var detected := new ConfigRecord.SizeBox(lengthSize);
      var ok := Normalize.NormalizeStream(codec, Some(data), lengthSize, normalized, detected, false);
      if !ok { return Corrupted; }
      ghost var nals := Normalize.Parse(codec, data, lengthSize, false, true).value.nals;
      Normalize.ParsedIsValid(codec, data, lengthSize, false, true);
      lengthSize := detected.value;
      hide Normalize.Parse, AnnexB;
      var packed, packet := MakePacket(normalized.bytes, nals);
      if !packed { return NoMemory; }
      var queued: Status := *;
      if queued != OK { return queued; }
      BooksSubmit(codec, config, configPending, history, packets, nals);
      history := history + [Submitted(nals)];
      packets := packets + [packet];
      configPending := false;
      s := OK;
    }

    /** `ProcessV4l2Decoder`: configuration updates first, then a configuration buffer or an access
        unit, then what draining reports. */
    method ProcessDecoder(work: Work) returns (s: Status, ghost stored: nat)
      requires Valid()
      modifies this`config, this`configPending, this`lengthSize, this`history, this`packets, this`signalledEos
      ensures Valid() && old(history) <= history
      ensures old(packets) <= packets && |packets| <= |old(packets)| + 1
      ensures work.codecConfig ==> packets == old(packets)
      ensures Effect(codec, work, s, Progress(old(history), old(lengthSize)), Progress(history, lengthSize), stored)
    {
      hide Books, Normalize.Parse, Fits, OnlyStored, StoreAll;
      StoreNothing(codec, Progress(history, lengthSize));
      stored := 0;
      var sessionOpen: Status := *;
      if sessionOpen != OK { return sessionOpen, 0; }
      s, stored := ProcessDecoderConfigUpdates(work.updates);
      assert work.updates[..|work.updates|] == work.updates;
      if s != OK { return; }
      if work.input.Some? && !work.readable { return BadValue, stored; }
      if work.codecConfig {
        if work.input.Some? {
          s := StoreDecoderConfig(work.input.value);
          if s != OK { return; }
        }
        signalledEos := signalledEos || work.eos;
        return OK, stored;
      }
      if work.input.Some? && work.input.value != [] {
        s := SubmitAccessUnit(work.input.value);
        if s != OK { return; }
      }
      var drained: Status := *;
      if drained != OK { return drained, stored; }
      if work.eos { signalledEos := true; }
      s := OK;
    }

    /** After an error or the end of the stream, work is refused until a flush. */
    method Process(work: Work) returns (s: Status, ghost stored: nat)
      requires Valid()
      modifies this
      ensures Valid() && old(history) <= history
      ensures old(signalledError) || old(signalledEos) ==> s == BadValue && history == old(history) && packets == old(packets)
      ensures signalledError == (old(signalledError) || (s != OK && !old(signalledEos)))
      ensures Effect(codec, work, s, Progress(old(history), old(lengthSize)), Progress(history, lengthSize), stored)
    {
      hide Books, Handled, StoreAll;
      StoreNothing(codec, Progress(history, lengthSize));
      if signalledError || signalledEos { return BadValue, 0; }
      s, stored := ProcessDecoder(work);
      if s != OK { signalledError := true; }
    }

    /** Draining to the end of the stream flushes the session, and leaves the configuration alone. */
    method DrainWithEos() returns (s: Status)
      requires Valid()
      modifies this`history
      ensures Valid()
      ensures history == old(history) || history == old(history) + [Emptied]
    {
      hide Books;
      var drained: Status, sawEos: bool := *, *;
      if drained != OK || !sawEos { return drained; }
      BooksEmptied(codec, config, configPending, history, packets);
      history := history + [Emptied];
      s := *;
    }

    /** A flush keeps the configuration and sends it again. */
    method Flush() returns (s: Status)
      requires Valid()
      modifies this
      ensures Valid() && config == old(config) && packets == old(packets) && lengthSize == old(lengthSize)
      ensures history == old(history) + [if s == OK then Flushed else Emptied]
      ensures s == OK ==> configPending == (old(configPending) || config != [])
    {
      hide Books;
      var flushed: Status := *;
      if flushed != OK {
        BooksEmptied(codec, config, configPending, history, packets);
        history := history + [Emptied];
        return flushed;
      }
      BooksFlush(codec, config, configPending, history, packets);
      if config != [] {
        configPending := true;
      }
      history := history + [Flushed];
      signalledError, signalledEos := false, false;
      s := OK;
    }

    /** Stopping, resetting and releasing forget the configuration. */
    method Stop()
      requires Valid()
      modifies this
      ensures Valid() && history == old(history) + [Cleared] && packets == old(packets)
      ensures config == [] && !configPending && lengthSize == DEFAULT_LENGTH_SIZE
    {
      hide Books;
      BooksClear(codec, config, configPending, history, packets);
      config, configPending, lengthSize := [], false, DEFAULT_LENGTH_SIZE;
      history := history + [Cleared];
      signalledError, signalledEos := false, false;
    }
  }

  lemma StoreNothing(codec: Codec, p: Progress)
    ensures StoreAll(codec, p, []) == p
  {
  }

  ghost predicate OnlyStored(before: seq<Event>, after: seq<Event>) {
    |before| <= |after| && forall k :: |before| <= k < |after| ==> after[k].Stored?
  }

  lemma EmptyPrefix(config: seq<byte>, packet: seq<byte>)
    ensures config == [] ==> config + packet == packet
  {
  }


  ghost predicate Books(codec: Codec, config: seq<byte>, pending: bool, history: seq<Event>, packets: seq<seq<byte>>) {
    && config == AnnexB(InForce(history).nals) && pending == InForce(history).waiting
    && AllValid(codec, InForce(history).nals) && NonEmptyConfigs(history) && packets == Packets(history)
  }

  lemma BooksPending(codec: Codec, config: seq<byte>, pending: bool, history: seq<Event>, packets: seq<seq<byte>>)
    requires Books(codec, config, pending, history, packets)
    ensures config == AnnexB(InForce(history).nals) && pending == InForce(history).waiting
  {
  }

  lemma BooksStore(codec: Codec, config: seq<byte>, pending: bool, history: seq<Event>, packets: seq<seq<byte>>,
                   nals: seq<seq<byte>>)
    requires Books(codec, config, pending, history, packets) && nals != [] && AllValid(codec, nals)
    ensures Books(codec, if pending then config + AnnexB(nals) else AnnexB(nals), true, history + [Stored(nals)], packets)
  {
    HistorySnoc(history, Stored(nals));
    AnnexBConcat(InForce(history).nals, nals);
  }

  lemma BooksSubmit(codec: Codec, config: seq<byte>, pending: bool, history: seq<Event>, packets: seq<seq<byte>>,
                    nals: seq<seq<byte>>)
    requires Books(codec, config, pending, history, packets)
    ensures Books(codec, config, false, history + [Submitted(nals)],
                  packets + [AnnexB(Carried(InForce(history), nals))])
  {
    HistorySnoc(history, Submitted(nals));
  }

  lemma BooksFlush(codec: Codec, config: seq<byte>, pending: bool, history: seq<Event>, packets: seq<seq<byte>>)
    requires Books(codec, config, pending, history, packets)
    ensures Books(codec, config, pending || config != [], history + [Flushed], packets)
  {
    HistorySnoc(history, Flushed);
    NothingIsEmpty(InForce(history).nals);
  }

  lemma BooksEmptied(codec: Codec, config: seq<byte>, pending: bool, history: seq<Event>, packets: seq<seq<byte>>)
    requires Books(codec, config, pending, history, packets)
    ensures Books(codec, config, pending, history + [Emptied], packets)
  {
    HistorySnoc(history, Emptied);
  }

  lemma NothingIsEmpty(nals: seq<seq<byte>>)
    ensures AnnexB(nals) == [] <==> nals == []
  {
  }

  lemma BooksClear(codec: Codec, config: seq<byte>, pending: bool, history: seq<Event>, packets: seq<seq<byte>>)
    requires Books(codec, config, pending, history, packets)
    ensures Books(codec, [], false, history + [Cleared], packets)
  {
    HistorySnoc(history, Cleared);
  }

  // ----- whole runs -----

  datatype Command = ProcessWork(work: Work) | FlushComponent | DrainComponent | StopComponent

  /** What each command may do to the history and the length size. */
  ghost predicate Follows(codec: Codec, command: Command, s: Status, before: Progress, after: Progress) {
    match command
    case ProcessWork(work) => exists stored: nat :: Effect(codec, work, s, before, after, stored)
    case FlushComponent => after == before.(history := before.history + [if s == OK then Flushed else Emptied])
    case DrainComponent => after == before || after == before.(history := before.history + [Emptied])
    case StopComponent => after == Progress(before.history + [Cleared], DEFAULT_LENGTH_SIZE)
  }

  /** Whatever the work items, flushes, drains and resets: the history is what the commands make it, and
      the configuration bytes and every packet are those that the history calls for. */
  method AnyRun(codec: Codec, commands: seq<Command>)
    returns (c: Component, statuses: seq<Status>, ghost trace: seq<Progress>)
    ensures c.Valid() && c.codec == codec
    ensures |statuses| == |commands| && |trace| == |commands| + 1
    ensures trace[0] == Progress([], DEFAULT_LENGTH_SIZE) && trace[|commands|] == Progress(c.history, c.lengthSize)
    ensures forall k :: 0 <= k < |commands| ==> Follows(codec, commands[k], statuses[k], trace[k], trace[k + 1])
    ensures c.packets == Packets(c.history) && c.config == AnnexB(InForce(c.history).nals)
    ensures (c.configPending <==> exists i :: Armed(c.history, i)) && 1 <= c.lengthSize <= 4
  {
    c := new Component(codec);
    statuses, trace := [], [Progress(c.history, c.lengthSize)];
    for k := 0 to |commands|
      invariant c.Valid() && fresh(c) && c.codec == codec
      invariant |statuses| == k && |trace| == k + 1
      invariant trace[0] == Progress([], DEFAULT_LENGTH_SIZE) && trace[k] == Progress(c.history, c.lengthSize)
      invariant forall j :: 0 <= j < k ==> Follows(codec, commands[j], statuses[j], trace[j], trace[j + 1])
    {
      hide Component.Valid, Follows;
      var s := RunCommand(c, commands[k]);
      statuses := statuses + [s];
      trace := trace + [Progress(c.history, c.lengthSize)];
    }
    WaitingExact(c.history);
  }

  method RunCommand(c: Component, command: Command) returns (s: Status)
    requires c.Valid()
    modifies c
    ensures c.Valid()
    ensures Follows(c.codec, command, s, Progress(old(c.history), old(c.lengthSize)), Progress(c.history, c.lengthSize))
  {
    hide Component.Valid, Effect;
    match command
    case ProcessWork(work) =>
      ghost var stored;
      s, stored := c.Process(work);
    case FlushComponent => s := c.Flush();
    case DrainComponent => s := c.DrainWithEos();
    case StopComponent =>
      c.Stop();
      s := OK;
  }
}
