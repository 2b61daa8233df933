/** Presentation times and the frame metadata list that outlives an input buffer. */
module EncoderMetadata {
  import opened Wrappers

  const INT64_MAX: nat := 0x7FFF_FFFF_FFFF_FFFF
  /** `time_t` is 64 bits wide on the supported target. */
  const TIME_T_MAX: nat := INT64_MAX

  datatype Timeval = Timeval(sec: int, usec: int)

  datatype FrameMeta = FrameMeta(timestamp: Timeval, frameIndex: nat)

  function MakeTimestamp(timestampUs: int): Option<Timeval> {
    if timestampUs < 0 || timestampUs > INT64_MAX / 1000 || timestampUs / 1_000_000 > TIME_T_MAX then None
    else Some(Timeval(timestampUs / 1_000_000, timestampUs % 1_000_000))
  }

  /** A time is accepted exactly when the kernel can hold it as signed nanoseconds, and it
      keeps every microsecond. */
  lemma TimestampExact(timestampUs: int)
    ensures MakeTimestamp(timestampUs).Some? <==> 0 <= timestampUs && timestampUs * 1000 <= INT64_MAX
    ensures MakeTimestamp(timestampUs).Some? ==>
      var t := MakeTimestamp(timestampUs).value;
      && 0 <= t.sec && 0 <= t.usec < 1_000_000
      && t.sec * 1_000_000 + t.usec == timestampUs
      && t.sec * 1_000_000_000 + t.usec * 1000 <= INT64_MAX
  {
  }

  lemma TimestampInjective(a: int, b: int)
    requires MakeTimestamp(a).Some? && MakeTimestamp(a) == MakeTimestamp(b)
    ensures a == b
  {
    TimestampExact(a);
    TimestampExact(b);
  }

  /** The frame indices with presentation time `t`, in list order. */
  function OfTime(frames: seq<FrameMeta>, t: Timeval): seq<nat> {
    if frames == [] then []
    else (if frames[0].timestamp == t then [frames[0].frameIndex] else []) + OfTime(frames[1..], t)
  }

  lemma {:induction false} OfTimeConcat(a: seq<FrameMeta>, b: seq<FrameMeta>, t: Timeval)
    ensures OfTime(a + b, t) == OfTime(a, t) + OfTime(b, t)
  {
    if a == [] {
      assert a + b == b;
    } else {
      assert (a + b)[1..] == a[1..] + b && (a + b)[0] == a[0];
      OfTimeConcat(a[1..], b, t);
      var head := if a[0].timestamp == t then [a[0].frameIndex] else [];
      assert head + (OfTime(a[1..], t) + OfTime(b, t)) == head + OfTime(a[1..], t) + OfTime(b, t);
    }
  }

  lemma OfTimeOne(f: FrameMeta, t: Timeval)
    ensures OfTime([f], t) == if f.timestamp == t then [f.frameIndex] else []
  {
    assert OfTime([f][1..], t) == [];
  }

  lemma {:induction false} OfTimeNone(frames: seq<FrameMeta>, t: Timeval)
    requires forall k :: 0 <= k < |frames| ==> frames[k].timestamp != t
    ensures OfTime(frames, t) == []
  {
    if frames != [] {
      OfTimeNone(frames[1..], t);
    }
  }

  function Without(frames: seq<FrameMeta>, k: nat): seq<FrameMeta>
    requires k < |frames|
  {
    frames[..k] + frames[k + 1..]
  }

  lemma CutAt(frames: seq<FrameMeta>, k: nat)
    requires k < |frames|
    ensures frames == frames[..k] + ([frames[k]] + frames[k + 1..])
  {
  }

  lemma WithoutMultiset(frames: seq<FrameMeta>, k: nat)
    requires k < |frames|
    ensures multiset(frames) == multiset{frames[k]} + multiset(Without(frames, k))
  {
    CutAt(frames, k);
    var a, f, b := frames[..k], frames[k], frames[k + 1..];
    assert multiset(a + ([f] + b)) == multiset(a) + (multiset{f} + multiset(b));
  }

  /** Taking the first entry of a time removes exactly the oldest index of that time. */
  lemma TakeIsFifo(frames: seq<FrameMeta>, k: nat, u: Timeval)
    requires k < |frames|
    requires forall j :: 0 <= j < k ==> frames[j].timestamp != frames[k].timestamp
    ensures OfTime(frames, u)
         == (if u == frames[k].timestamp then [frames[k].frameIndex] else []) + OfTime(Without(frames, k), u)
    ensures multiset(frames) == multiset{frames[k]} + multiset(Without(frames, k))
  {
    WithoutMultiset(frames, k);
    CutAt(frames, k);
    var a, f, b := frames[..k], frames[k], frames[k + 1..];
    OfTimeConcat(a, [f] + b, u);
    OfTimeConcat([f], b, u);
    OfTimeConcat(a, b, u);
    OfTimeOne(f, u);
    if u == f.timestamp {
      OfTimeNone(a, u);
    }
  }

  /** Removes the first entry with the given time. Repeated times are matched in queue order;
      an unknown time consumes nothing. */
  method TakeFrameIndex(frames: seq<FrameMeta>, timestamp: Timeval) returns (index: Option<nat>, rest: seq<FrameMeta>)
    ensures index.None? ==> rest == frames && forall k :: 0 <= k < |frames| ==> frames[k].timestamp != timestamp
    ensures index.Some? ==> exists k ::
      0 <= k < |frames| && frames[k].timestamp == timestamp && index.value == frames[k].frameIndex
      && rest == Without(frames, k) && forall j :: 0 <= j < k ==> frames[j].timestamp != timestamp
  {
    var found := 0;
    while found < |frames| && frames[found].timestamp != timestamp
      invariant 0 <= found <= |frames|
      invariant forall j :: 0 <= j < found ==> frames[j].timestamp != timestamp
    {
      found := found + 1;
    }
    if found == |frames| {
      return None, frames;
    }
    return Some(frames[found].frameIndex), Without(frames, found);
  }
}
