/** NAL units, their Annex-B byte stream form (Annex B of ITU-T H.264 and H.265) and
    the grammar that the byte stream normaliser accepts. */
module Wrappers {
  datatype Option<+T> = None | Some(value: T)
}

module Nal {
  import opened Wrappers

  type byte = x: int | 0 <= x < 256

  datatype Codec = Avc | Hevc

  /** The largest `size_t`. */
  const SIZE_MAX: nat := 0xFFFF_FFFF_FFFF_FFFF

  /** `std::vector<uint8_t>` passed by pointer. */
  class ByteVector {
    var bytes: seq<byte>

    constructor ()
      ensures bytes == []
    {
      bytes := [];
    }
  }

  predicate ValidHeader(codec: Codec, nal: seq<byte>) {
    && |nal| > 0
    && nal[0] < 128
    && match codec
       case Avc => nal[0] % 32 != 0 && nal[0] % 32 <= 23
       case Hevc => |nal| >= 2 && nal[1] % 8 != 0 && (nal[0] / 2) % 64 <= 63
  }

  predicate AllValid(codec: Codec, nals: seq<seq<byte>>) {
    forall k :: 0 <= k < |nals| ==> ValidHeader(codec, nals[k])
  }

  // ----- the Annex-B form of a list of NAL units -----

  function AnnexB(nals: seq<seq<byte>>): seq<byte> {
    if nals == [] then [] else [0, 0, 0, 1] + nals[0] + AnnexB(nals[1..])
  }

  /** The append guard never lets `output->size()` wrap. */
  predicate Fits(nals: seq<seq<byte>>) {
    |AnnexB(nals)| <= SIZE_MAX
  }

  lemma {:induction false} AnnexBConcat(a: seq<seq<byte>>, b: seq<seq<byte>>)
    ensures AnnexB(a + b) == AnnexB(a) + AnnexB(b)
  {
    if a == [] {
      assert a + b == b;
    } else {
      assert (a + b)[1..] == a[1..] + b;
      AnnexBConcat(a[1..], b);
    }
  }

  lemma AnnexBOne(nal: seq<byte>)
    ensures AnnexB([nal]) == [0, 0, 0, 1] + nal
  {
    assert AnnexB([nal]) == [0, 0, 0, 1] + nal + AnnexB([]);
  }

  lemma AnnexBSnoc(a: seq<seq<byte>>, nal: seq<byte>)
    ensures AnnexB(a + [nal]) == AnnexB(a) + [0, 0, 0, 1] + nal
  {
    AnnexBConcat(a, [nal]);
    AnnexBOne(nal);
  }

  // ----- start code prefixes -----

  predicate PrefixAt(s: seq<byte>, i: nat) {
    i + 3 <= |s| && s[i] == 0 && s[i + 1] == 0 && s[i + 2] == 1
  }

  ghost predicate PrefixFree(s: seq<byte>) {
    forall i: nat :: !PrefixAt(s, i)
  }

  /** Index of the first `00 00 01` at or after `from`; `|s|` when there is none. */
  function FindPrefix(s: seq<byte>, from: nat): (p: nat)
    requires from <= |s|
    ensures from <= p <= |s| && (p < |s| ==> p + 3 <= |s|)
    decreases |s| - from
  {
    if from + 3 > |s| then |s|
    else if PrefixAt(s, from) then from
    else FindPrefix(s, from + 1)
  }

  function FirstPrefix(s: seq<byte>): nat {
    FindPrefix(s, 0)
  }

  lemma {:induction false} FindPrefixIsFirst(s: seq<byte>, from: nat)
    requires from <= |s|
    ensures var p := FindPrefix(s, from);
      && (p < |s| ==> PrefixAt(s, p))
      && forall j: nat :: from <= j < p ==> !PrefixAt(s, j)
    decreases |s| - from
  {
    if from + 3 <= |s| && !PrefixAt(s, from) {
      FindPrefixIsFirst(s, from + 1);
    }
  }

  /** `s` without its trailing zero bytes. */
  function Trim(s: seq<byte>): (t: seq<byte>)
    ensures |t| <= |s|
  {
    if s != [] && s[|s| - 1] == 0 then Trim(s[..|s| - 1]) else s
  }

  lemma {:induction false} TrimExact(s: seq<byte>)
    ensures s == Trim(s) + Zeros(|s| - |Trim(s)|)
    ensures Trim(s) == [] || Trim(s)[|Trim(s)| - 1] != 0
  {
    if s != [] && s[|s| - 1] == 0 {
      TrimExact(s[..|s| - 1]);
    }
  }

  /** The NAL units of the bytes that follow a start code prefix. */
  function Split(s: seq<byte>): (nals: seq<seq<byte>>)
    ensures nals != []
    decreases |s|
  {
    var p := FirstPrefix(s);
    if p == |s| then [Trim(s)] else [Trim(s[..p])] + Split(s[p + 3..])
  }

  /** What normalising a byte stream yields: `None` is rejection. */
  function ParseAnnexB(codec: Codec, s: seq<byte>): (r: Option<seq<seq<byte>>>)
  {
    var p := FirstPrefix(s);
    if p == |s| then None
    else
      var nals := Split(s[p + 3..]);
      if AllValid(codec, nals) && Fits(nals) then Some(nals) else None
  }

  // ----- the byte stream grammar, stated without any search -----

  datatype Unit = Unit(nal: seq<byte>, zeros: nat)

  function Zeros(n: nat): (z: seq<byte>)
    ensures |z| == n && forall k :: 0 <= k < n ==> z[k] == 0
  {
    seq(n, _ => 0)
  }

  /** `nal_unit trailing_zero*`, repeated with a start code prefix in between. */
  function Stream(units: seq<Unit>): seq<byte>
    requires units != []
  {
    var padded := units[0].nal + Zeros(units[0].zeros);
    if |units| == 1 then padded else padded + [0, 0, 1] + Stream(units[1..])
  }

  function NalsOf(units: seq<Unit>): (nals: seq<seq<byte>>)
    ensures |nals| == |units|
    ensures forall k :: 0 <= k < |units| ==> nals[k] == units[k].nal
  {
    seq(|units|, k requires 0 <= k < |units| => units[k].nal)
  }

  lemma StreamCons(u: Unit, units: seq<Unit>)
    requires units != []
    ensures Stream([u] + units) == (u.nal + Zeros(u.zeros)) + [0, 0, 1] + Stream(units)
    ensures NalsOf([u] + units) == [u.nal] + NalsOf(units)
  {
    assert ([u] + units)[1..] == units;
  }

  /** A NAL that survives a byte stream unchanged. */
  ghost predicate CanonicalNal(codec: Codec, nal: seq<byte>) {
    ValidHeader(codec, nal) && PrefixFree(nal) && nal[|nal| - 1] != 0
  }

  ghost predicate AllCanonical(codec: Codec, nals: seq<seq<byte>>) {
    forall k :: 0 <= k < |nals| ==> CanonicalNal(codec, nals[k])
  }

  /** `s` is `pre`, which holds no prefix, then a prefix and at least one unit. */
  ghost predicate IsByteStream(codec: Codec, s: seq<byte>, pre: seq<byte>, units: seq<Unit>) {
    && PrefixFree(pre)
    && units != []
    && AllCanonical(codec, NalsOf(units))
    && s == pre + [0, 0, 1] + Stream(units)
  }

  // ----- search against grammar -----

  lemma FirstPrefixIs(s: seq<byte>, p: nat)
    requires PrefixAt(s, p)
    requires forall j: nat :: j < p ==> !PrefixAt(s, j)
    ensures FirstPrefix(s) == p
  {
    FindPrefixIsFirst(s, 0);
  }

  lemma FirstPrefixNone(s: seq<byte>)
    requires PrefixFree(s)
    ensures FirstPrefix(s) == |s|
  {
    FindPrefixIsFirst(s, 0);
  }

  /** No start code prefix can begin inside `a`: the pattern does not overlap itself. */
  lemma FirstPrefixAfter(a: seq<byte>, rest: seq<byte>)
    requires PrefixFree(a)
    ensures FirstPrefix(a + [0, 0, 1] + rest) == |a|
  {
    var s := a + [0, 0, 1] + rest;
    assert s[|a|] == 0 && s[|a| + 1] == 0 && s[|a| + 2] == 1;
    forall j: nat | j < |a| ensures !PrefixAt(s, j) {
      assert j + 3 > |a| ==> s[j + 2] == 0;
      assert j + 3 <= |a| ==> PrefixAt(a, j) == PrefixAt(s, j);
    }
    FirstPrefixIs(s, |a|);
  }

  lemma {:induction false} TrimPadded(nal: seq<byte>, z: nat)
    requires nal != [] && nal[|nal| - 1] != 0
    ensures Trim(nal + Zeros(z)) == nal
  {
    if z == 0 {
      assert nal + Zeros(0) == nal;
    } else {
      var s := nal + Zeros(z);
      assert s[|s| - 1] == Zeros(z)[z - 1];
      assert s[..|s| - 1] == nal + Zeros(z - 1);
      TrimPadded(nal, z - 1);
    }
  }

  lemma PaddedPrefixFree(nal: seq<byte>, z: nat)
    requires PrefixFree(nal)
    ensures PrefixFree(nal + Zeros(z))
  {
    var s := nal + Zeros(z);
    forall i: nat ensures !PrefixAt(s, i) {
      assert |nal| < i + 3 <= |s| ==> s[i + 2] == Zeros(z)[i + 2 - |nal|] == 0;
      assert i + 3 <= |nal| ==> PrefixAt(nal, i) == PrefixAt(s, i);
    }
  }

  lemma SplitLast(s: seq<byte>)
    requires FirstPrefix(s) == |s|
    ensures Split(s) == [Trim(s)]
  {
  }

  lemma SplitHead(s: seq<byte>, head: seq<byte>, tail: seq<byte>)
    requires s == head + [0, 0, 1] + tail && FirstPrefix(s) == |head|
    ensures Split(s) == [Trim(head)] + Split(tail)
  {
    assert s[..|head|] == head && s[|head| + 3..] == tail;
  }

  /** Splitting a well-formed byte stream recovers its NAL units. */
  lemma {:induction false} SplitStream(codec: Codec, units: seq<Unit>)
    requires units != [] && AllCanonical(codec, NalsOf(units))
    ensures Split(Stream(units)) == NalsOf(units)
  {
    var u, rest := units[0], units[1..];
    var body := u.nal + Zeros(u.zeros);
    assert CanonicalNal(codec, NalsOf(units)[0]);
    PaddedPrefixFree(u.nal, u.zeros);
    TrimPadded(u.nal, u.zeros);
    if rest == [] {
      FirstPrefixNone(body);
      SplitLast(body);
    } else {
      assert units == [u] + rest;
      StreamCons(u, rest);
      AllCanonicalTail(codec, NalsOf(units));
      assert NalsOf(units)[1..] == NalsOf(rest);
      SplitStream(codec, rest);
      FirstPrefixAfter(body, Stream(rest));
      SplitHead(Stream(units), body, Stream(rest));
    }
  }

  lemma AllCanonicalTail(codec: Codec, nals: seq<seq<byte>>)
    requires nals != [] && AllCanonical(codec, nals)
    ensures CanonicalNal(codec, nals[0]) && AllCanonical(codec, nals[1..])
  {
    forall k | 0 <= k < |nals| - 1 ensures CanonicalNal(codec, nals[1..][k]) {
      assert nals[1..][k] == nals[k + 1];
    }
  }

  /** A NAL with the zero bytes that follow it. */
  ghost function PaddedUnit(head: seq<byte>): (u: Unit)
    ensures u.nal == Trim(head) && head == u.nal + Zeros(u.zeros)
  {
    TrimExact(head);
    Unit(Trim(head), |head| - |Trim(head)|)
  }

  ghost function Decompose(s: seq<byte>): (units: seq<Unit>)
    ensures units != []
    decreases |s|
  {
    var p := FirstPrefix(s);
    var u := PaddedUnit(s[..p]);
    if p == |s| then [u] else [u] + Decompose(s[p + 3..])
  }

  lemma PrefixFreeSlice(s: seq<byte>, p: nat)
    requires p <= |s| && forall j: nat :: j < p ==> !PrefixAt(s, j)
    ensures PrefixFree(s[..p])
  {
    forall i: nat ensures !PrefixAt(s[..p], i) {
      assert PrefixAt(s[..p], i) ==> PrefixAt(s, i);
    }
  }

  lemma TrimPrefixFree(head: seq<byte>)
    requires PrefixFree(head)
    ensures PrefixFree(Trim(head))
  {
    var t := Trim(head);
    TrimExact(head);
    forall i: nat ensures !PrefixAt(t, i) {
      assert !PrefixAt(head, i);
      assert forall k :: 0 <= k < |t| ==> t[k] == head[k];
    }
  }

  lemma AllValidTail(codec: Codec, nal: seq<byte>, nals: seq<seq<byte>>)
    requires AllValid(codec, [nal] + nals)
    ensures ValidHeader(codec, nal) && AllValid(codec, nals)
  {
    assert ([nal] + nals)[0] == nal;
    forall k | 0 <= k < |nals| ensures ValidHeader(codec, nals[k]) {
      assert ([nal] + nals)[k + 1] == nals[k];
    }
  }

  lemma FirstPrefixSplits(s: seq<byte>)
    ensures var p := FirstPrefix(s);
      && PrefixFree(s[..p])
      && s == if p == |s| then s[..p] else s[..p] + [0, 0, 1] + s[p + 3..]
  {
    FindPrefixIsFirst(s, 0);
    PrefixFreeSlice(s, FirstPrefix(s));
  }

  /** Every byte sequence after a prefix is a stream of units. */
  lemma {:induction false} DecomposeCovers(s: seq<byte>)
    ensures Stream(Decompose(s)) == s
    ensures NalsOf(Decompose(s)) == Split(s)
    decreases |s|
  {
    var p := FirstPrefix(s);
    var head := s[..p];
    var u := PaddedUnit(head);
    FirstPrefixSplits(s);
    if p == |s| {
      SplitLast(s);
    } else {
      var tail := s[p + 3..];
      DecomposeCovers(tail);
      StreamCons(u, Decompose(tail));
      SplitHead(s, head, tail);
    }
  }

  /** Splitting cannot leave a start code or a trailing zero in a NAL: only its header can be
      wrong. */
  lemma {:induction false} SplitCanonical(codec: Codec, s: seq<byte>)
    requires AllValid(codec, Split(s))
    ensures AllCanonical(codec, Split(s))
    decreases |s|
  {
    var p := FirstPrefix(s);
    var head := s[..p];
    FirstPrefixSplits(s);
    TrimExact(head);
    TrimPrefixFree(head);
    if p == |s| {
      SplitLast(s);
      assert Split(s)[0] == Trim(head);
    } else {
      var tail := s[p + 3..];
      SplitHead(s, head, tail);
      AllValidTail(codec, Trim(head), Split(tail));
      SplitCanonical(codec, tail);
    }
  }

  /** The normaliser accepts exactly the byte streams of the grammar, and returns their
      NAL units in order. */
  lemma ParseAnnexBExact(codec: Codec, s: seq<byte>, nals: seq<seq<byte>>)
    ensures ParseAnnexB(codec, s) == Some(nals)
       <==> Fits(nals) && exists pre, units :: IsByteStream(codec, s, pre, units) && NalsOf(units) == nals
  {
    if ParseAnnexB(codec, s) == Some(nals) {
      ParsesToByteStream(codec, s);
    }
    if Fits(nals) && exists pre, units :: IsByteStream(codec, s, pre, units) && NalsOf(units) == nals {
      var pre, units :| IsByteStream(codec, s, pre, units) && NalsOf(units) == nals;
      ByteStreamParses(codec, s, pre, units);
    }
  }

  lemma ParsesToByteStream(codec: Codec, s: seq<byte>)
    requires ParseAnnexB(codec, s).Some?
    ensures exists pre, units :: IsByteStream(codec, s, pre, units) && NalsOf(units) == ParseAnnexB(codec, s).value
  {
    var p := FirstPrefix(s);
    var pre, tail := s[..p], s[p + 3..];
    FirstPrefixSplits(s);
    DecomposeCovers(tail);
    SplitCanonical(codec, tail);
    assert IsByteStream(codec, s, pre, Decompose(tail));
  }

  lemma ByteStreamParses(codec: Codec, s: seq<byte>, pre: seq<byte>, units: seq<Unit>)
    requires IsByteStream(codec, s, pre, units) && Fits(NalsOf(units))
    ensures ParseAnnexB(codec, s) == Some(NalsOf(units))
  {
    SplitStream(codec, units);
    FirstPrefixAfter(pre, Stream(units));
    assert s[|pre| + 3..] == Stream(units);
  }

  // ----- canonical streams -----

  /** Annex-B output is a byte stream whose extra zero byte belongs to the code before it. */
  ghost function CanonicalUnits(nals: seq<seq<byte>>): (units: seq<Unit>)
    ensures |units| == |nals|
    ensures forall k :: 0 <= k < |nals| ==> units[k].nal == nals[k]
  {
    seq(|nals|, k requires 0 <= k < |nals| => Unit(nals[k], if k + 1 < |nals| then 1 else 0))
  }

  lemma {:induction false} AnnexBIsStream(nals: seq<seq<byte>>)
    requires nals != []
    ensures AnnexB(nals) == [0] + [0, 0, 1] + Stream(CanonicalUnits(nals))
  {
    var units := CanonicalUnits(nals);
    var rest := nals[1..];
    if rest == [] {
      assert Zeros(0) == [];
    } else {
      assert units == [units[0]] + CanonicalUnits(rest);
      StreamCons(units[0], CanonicalUnits(rest));
      AnnexBIsStream(rest);
      assert Zeros(1) == [0];
    }
  }

  /** Round trip: normalising the Annex-B form of canonical NAL units returns them. */
  lemma AnnexBRoundTrip(codec: Codec, nals: seq<seq<byte>>)
    requires nals != [] && AllCanonical(codec, nals) && Fits(nals)
    ensures ParseAnnexB(codec, AnnexB(nals)) == Some(nals)
  {
    AnnexBIsStream(nals);
    var units := CanonicalUnits(nals);
    assert NalsOf(units) == nals;
    assert IsByteStream(codec, AnnexB(nals), [0], units);
    ByteStreamParses(codec, AnnexB(nals), [0], units);
  }

  /** Success always yields a canonical stream, so normalising again is the identity. */
  lemma NormalizeIdempotent(codec: Codec, s: seq<byte>)
    requires ParseAnnexB(codec, s).Some?
    ensures AllCanonical(codec, ParseAnnexB(codec, s).value)
    ensures ParseAnnexB(codec, AnnexB(ParseAnnexB(codec, s).value)) == ParseAnnexB(codec, s)
  {
    var nals := ParseAnnexB(codec, s).value;
    SplitCanonical(codec, s[FirstPrefix(s) + 3..]);
    AnnexBRoundTrip(codec, nals);
  }

  /** Two normalised streams put together stay normalised: nothing is re-split at the seam. */
  lemma CanonicalConcat(codec: Codec, a: seq<seq<byte>>, b: seq<seq<byte>>)
    requires a != [] && AllCanonical(codec, a) && AllCanonical(codec, b) && Fits(a + b)
    ensures ParseAnnexB(codec, AnnexB(a) + AnnexB(b)) == Some(a + b)
  {
    AnnexBConcat(a, b);
    AnnexBRoundTrip(codec, a + b);
  }

  /** Distinct canonical NAL lists have distinct Annex-B forms. */
  lemma {:induction false} AnnexBInjective(codec: Codec, a: seq<seq<byte>>, b: seq<seq<byte>>)
    requires AllCanonical(codec, a) && AllCanonical(codec, b) && Fits(a)
    requires AnnexB(a) == AnnexB(b)
    ensures a == b
  {
    if a != [] && b != [] {
      AnnexBRoundTrip(codec, a);
      AnnexBRoundTrip(codec, b);
    }
  }
}
