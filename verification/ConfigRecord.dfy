/** The decoder configuration records avcC (section 5.3.3.1 of ISO/IEC 14496-15) and hvcC
    (section 8.3.3.1): parameter sets with two-byte sizes behind a fixed header. */
module ConfigRecord {
  import opened Wrappers
  import opened Nal
  import opened LengthPrefixed

  /** An `uint8_t` written through a pointer that may be null. */
  class SizeBox {
    var value: byte

    constructor (v: byte)
      ensures value == v
    {
      value := v;
    }
  }

  /** The most bytes one NAL with a two-byte size adds to the output. */
  const MAX_UNIT: nat := 0x1_0003

  const MAX_ARRAY: nat := 0x1_0000 * MAX_UNIT

  // ----- lists of NAL units with two-byte sizes -----

  datatype Listing =
    | Listed(nals: seq<seq<byte>>, rest: seq<byte>)
    | Truncated(nals: seq<seq<byte>>)
    | BadNal

  function Cons(nal: seq<byte>, more: Listing): Listing {
    match more
    case Listed(nals, rest) => Listed([nal] + nals, rest)
    case Truncated(nals) => Truncated([nal] + nals)
    case BadNal => BadNal
  }

  function ReadNals(codec: Codec, count: nat, d: seq<byte>): Listing {
    if count == 0 then Listed([], d)
    else if |d| < 2 then Truncated([])
    else
      match TakeNal(codec, 2, d)
      case None => BadNal
      case Some(nal) => Cons(nal, ReadNals(codec, count - 1, d[2 + |nal|..]))
  }

  lemma {:induction false} ReadNalsSound(codec: Codec, count: nat, d: seq<byte>)
    requires ReadNals(codec, count, d).Listed?
    ensures var l := ReadNals(codec, count, d);
      |l.nals| == count && AllValid(codec, l.nals) && SizesFit(2, l.nals) && d == Encode(2, l.nals) + l.rest
  {
    if count > 0 {
      TakenIsPrefixed(codec, 2, d);
      var nal := TakeNal(codec, 2, d).value;
      ReadNalsSound(codec, count - 1, d[2 + |nal|..]);
      var more := ReadNals(codec, count - 1, d[2 + |nal|..]);
      ConsSound(codec, nal, more.nals, more.rest, d);
    }
  }

  lemma ConsSound(codec: Codec, nal: seq<byte>, nals: seq<seq<byte>>, rest: seq<byte>, d: seq<byte>)
    requires ValidHeader(codec, nal) && |nal| < Pow256(2) && AllValid(codec, nals) && SizesFit(2, nals)
    requires d == Prefixed(2, nal) + (Encode(2, nals) + rest)
    ensures AllValid(codec, [nal] + nals) && SizesFit(2, [nal] + nals)
    ensures d == Encode(2, [nal] + nals) + rest
  {
    assert ([nal] + nals)[1..] == nals;
  }

  lemma {:induction false} ReadNalsComplete(codec: Codec, nals: seq<seq<byte>>, rest: seq<byte>)
    requires AllValid(codec, nals) && SizesFit(2, nals)
    ensures ReadNals(codec, |nals|, Encode(2, nals) + rest) == Listed(nals, rest)
  {
    if nals == [] {
      assert Encode(2, nals) + rest == rest;
    } else {
      var tail := Encode(2, nals[1..]) + rest;
      assert Encode(2, nals) + rest == Prefixed(2, nals[0]) + tail;
      TakePrefixed(codec, 2, nals[0], tail);
      ReadNalsComplete(codec, nals[1..], rest);
      assert [nals[0]] + nals[1..] == nals;
    }
  }

  lemma TwoByteSize(codec: Codec, d: seq<byte>)
    requires TakeNal(codec, 2, d).Some?
    ensures |TakeNal(codec, 2, d).value| + 4 <= MAX_UNIT
  {
    assert Pow256(2) == 256 * Pow256(1) && Pow256(1) == 256 * Pow256(0);
  }

  function Append(done: seq<seq<byte>>, more: Listing): Listing {
    match more
    case Listed(nals, rest) => Listed(done + nals, rest)
    case Truncated(nals) => Truncated(done + nals)
    case BadNal => BadNal
  }

  lemma AppendNothing(more: Listing)
    ensures Append([], more) == more
  {
    if !more.BadNal? { assert [] + more.nals == more.nals; }
  }

  lemma AppendOne(done: seq<seq<byte>>, nal: seq<byte>, more: Listing)
    ensures Append(done, Cons(nal, more)) == Append(done + [nal], more)
  {
    if !more.BadNal? { assert done + ([nal] + more.nals) == done + [nal] + more.nals; }
  }

  lemma AppendTwice(a: seq<seq<byte>>, b: seq<seq<byte>>, more: Listing)
    ensures Append(a, Append(b, more)) == Append(a + b, more)
  {
    if !more.BadNal? { assert a + (b + more.nals) == a + b + more.nals; }
  }

  /** Where an append loop with `left` NAL units to go stands. */
  ghost predicate ListedSoFar(codec: Codec, all: Listing, done: seq<seq<byte>>, left: nat, rest: seq<byte>) {
    all == Append(done, ReadNals(codec, left, rest))
  }

  lemma ListStops(codec: Codec, all: Listing, done: seq<seq<byte>>, left: nat, rest: seq<byte>)
    requires ListedSoFar(codec, all, done, left, rest)
    ensures left == 0 ==> all == Listed(done, rest)
    ensures left > 0 && |rest| < 2 ==> all == Truncated(done)
    ensures left > 0 && |rest| >= 2 && TakeNal(codec, 2, rest).None? ==> all == BadNal
  {
    assert done + [] == done;
  }

  lemma ListNext(codec: Codec, all: Listing, done: seq<seq<byte>>, left: nat, rest: seq<byte>, nal: seq<byte>,
                 tail: seq<byte>)
    requires ListedSoFar(codec, all, done, left, rest) && left > 0 && TakeNal(codec, 2, rest) == Some(nal)
    requires tail == rest[2 + |nal|..]
    ensures ListedSoFar(codec, all, done + [nal], left - 1, tail)
  {
    AppendOne(done, nal, ReadNals(codec, left - 1, tail));
  }

  lemma OutputNext(before: seq<byte>, done: seq<seq<byte>>, nal: seq<byte>)
    ensures before + AnnexB(done) + ([0, 0, 0, 1] + nal) == before + AnnexB(done + [nal])
  {
    AnnexBSnoc(done, nal);
    assert before + AnnexB(done) + ([0, 0, 0, 1] + nal) == before + (AnnexB(done) + [0, 0, 0, 1] + nal);
  }

  datatype ListEnd = Complete | CutShort | Malformed

  /** Appends `count` NAL units, stopping at the first that is cut short or malformed. */
  method AppendNalList(codec: Codec, count: nat, data: seq<byte>, offset: nat, output: ByteVector)
    returns (end: ListEnd, next: nat)
    requires offset <= |data| && |output.bytes| + count * MAX_UNIT <= SIZE_MAX
    modifies output
    ensures |output.bytes| <= old(|output.bytes|) + count * MAX_UNIT
    ensures match ReadNals(codec, count, data[offset..])
      case Listed(nals, rest) =>
        && end == Complete && output.bytes == old(output.bytes) + AnnexB(nals)
        && next <= |data| && data[next..] == rest
      case Truncated(nals) => end == CutShort && output.bytes == old(output.bytes) + AnnexB(nals)
      case BadNal => end == Malformed
  {
    next := offset;
    ghost var before, rest, done: seq<seq<byte>> := output.bytes, data[offset..], [];
    ghost var all := ReadNals(codec, count, rest);
    AppendNothing(all);
    for index := 0 to count
      invariant next <= |data| && rest == data[next..]
      invariant output.bytes == before + AnnexB(done)
      invariant |output.bytes| <= |before| + index * MAX_UNIT
      invariant ListedSoFar(codec, all, done, count - index, rest)
    {
      Budget(index, count);
      ListStops(codec, all, done, count - index, rest);
      if |data| - next < 2 {
        return CutShort, next;
      }
      ghost var taken := TakeNal(codec, 2, rest);
      if taken.Some? {
        TwoByteSize(codec, rest);
      }
      var appended, after := AppendPrefixedNal(codec, data, next, 2, output);
      if !appended {
        return Malformed, next;
      }
      ListNext(codec, all, done, count - index, rest, taken.value, data[after..]);
      OutputNext(before, done, taken.value);
      next, done, rest := after, done + [taken.value], data[after..];
    }
    ListStops(codec, all, done, 0, rest);
    end := Complete;
  }

  lemma Budget(index: nat, count: nat)
    requires index < count
    ensures index * MAX_UNIT + MAX_UNIT == (index + 1) * MAX_UNIT <= count * MAX_UNIT
  {
  }

  lemma Skip(a: seq<byte>, b: seq<byte>, n: nat)
    requires n == |a|
    ensures (a + b)[n..] == b && forall i :: 0 <= i < n ==> (a + b)[i] == a[i]
  {
  }

  // ----- avcC -----

  datatype Parsed =
    | Config(nals: seq<seq<byte>>, lengthSize: byte)
    | Rejected(residue: seq<byte>)
    | Untouched

  function ParseAvccRecord(d: seq<byte>): Parsed {
    if |d| < 7 || d[0] != 1 || d[4] / 4 != 63 then Untouched
    else
      match ReadNals(Avc, d[5] % 32, d[6..])
      case Truncated(nals) => Rejected(AnnexB(nals))
      case BadNal => Rejected([])
      case Listed(sps, rest) => ParseAvccPps(sps, rest, d[4] % 4 + 1)
  }

  function ParseAvccPps(sps: seq<seq<byte>>, d: seq<byte>, lengthSize: byte): Parsed {
    if d == [] then Rejected([])
    else
      match ReadNals(Avc, d[0], d[1..])
      case Truncated(_) => Rejected([])
      case BadNal => Rejected([])
      case Listed(pps, _) => if sps + pps == [] then Rejected([]) else Config(sps + pps, lengthSize)
  }

  /** The parts of an avcC record. `reserved` is the top of the SPS count byte, `trailer`
      the optional extension fields. */
  datatype Avcc = Avcc(
    profile: byte, compatibility: byte, level: byte, lengthSize: byte, reserved: byte,
    sps: seq<seq<byte>>, pps: seq<seq<byte>>, trailer: seq<byte>)
  {
    predicate Valid() {
      && 1 <= lengthSize <= 4 && reserved < 8
      && |sps| < 32 && AllValid(Avc, sps) && SizesFit(2, sps)
      && |pps| < 256 && AllValid(Avc, pps) && SizesFit(2, pps)
    }

    function Header(): seq<byte>
      requires Valid()
    {
      [1, profile, compatibility, level, 252 + (lengthSize - 1), reserved * 32 + |sps|]
    }

    function PpsPart(): seq<byte>
      requires Valid()
    {
      [|pps|] + (Encode(2, pps) + trailer)
    }

    function Bytes(): seq<byte>
      requires Valid()
    {
      Header() + (Encode(2, sps) + PpsPart())
    }
  }

  lemma AvccPpsRoundTrip(r: Avcc)
    requires r.Valid()
    ensures ParseAvccPps(r.sps, r.PpsPart(), r.lengthSize)
         == if r.sps + r.pps == [] then Rejected([]) else Config(r.sps + r.pps, r.lengthSize)
  {
    Skip([|r.pps|], Encode(2, r.pps) + r.trailer, 1);
    ReadNalsComplete(Avc, r.pps, r.trailer);
  }

  /** Round trip: parsing a built record returns its parameter sets and length size. */
  lemma AvccRoundTrip(r: Avcc)
    requires r.Valid()
    ensures ParseAvccRecord(r.Bytes())
         == if r.sps + r.pps == [] then Rejected([]) else Config(r.sps + r.pps, r.lengthSize)
  {
    AvccHeaderBytes(r);
    ReadNalsComplete(Avc, r.sps, r.PpsPart());
    AvccPpsRoundTrip(r);
  }

  lemma AvccHeaderBytes(r: Avcc)
    requires r.Valid()
    ensures var d := r.Bytes();
      && |d| >= 7 && d[0] == 1 && d[4] / 4 == 63 && d[4] % 4 + 1 == r.lengthSize && d[5] % 32 == |r.sps|
      && d[6..] == Encode(2, r.sps) + r.PpsPart()
  {
    Skip(r.Header(), Encode(2, r.sps) + r.PpsPart(), 6);
  }

  ghost predicate IsAvccOf(r: Avcc, d: seq<byte>, nals: seq<seq<byte>>, lengthSize: byte) {
    r.Valid() && d == r.Bytes() && nals == r.sps + r.pps && lengthSize == r.lengthSize
  }

  lemma AvccPpsSound(sps: seq<seq<byte>>, d: seq<byte>, lengthSize: byte) returns (pps: seq<seq<byte>>, trailer: seq<byte>)
    requires ParseAvccPps(sps, d, lengthSize).Config?
    ensures |pps| < 256 && AllValid(Avc, pps) && SizesFit(2, pps) && d == [|pps|] + (Encode(2, pps) + trailer)
    ensures ParseAvccPps(sps, d, lengthSize).nals == sps + pps
  {
    ReadNalsSound(Avc, d[0], d[1..]);
    var l := ReadNals(Avc, d[0], d[1..]);
    pps, trailer := l.nals, l.rest;
    assert d == [d[0]] + d[1..];
  }

  lemma HeaderIs(d: seq<byte>, lengthSize: byte, reserved: byte, count: byte)
    requires |d| >= 7 && d[0] == 1 && d[4] / 4 == 63 && lengthSize == d[4] % 4 + 1
    requires reserved == d[5] / 32 && count == d[5] % 32
    ensures d == [1, d[1], d[2], d[3], 252 + (lengthSize - 1), reserved * 32 + count] + d[6..]
  {
  }

  lemma AvccSound(d: seq<byte>) returns (r: Avcc)
    requires ParseAvccRecord(d).Config?
    ensures IsAvccOf(r, d, ParseAvccRecord(d).nals, ParseAvccRecord(d).lengthSize)
  {
    var count, body := d[5] % 32, d[6..];
    ReadNalsSound(Avc, count, body);
    var l := ReadNals(Avc, count, body);
    var lengthSize := d[4] % 4 + 1;
    var pps, trailer := AvccPpsSound(l.nals, l.rest, lengthSize);
    r := Avcc(d[1], d[2], d[3], lengthSize, d[5] / 32, l.nals, pps, trailer);
    HeaderIs(d, lengthSize, d[5] / 32, count);
    assert r.PpsPart() == l.rest;
    assert r.Header() == [1, d[1], d[2], d[3], 252 + (lengthSize - 1), d[5] / 32 * 32 + count];
    assert r.Bytes() == d;
  }

  /** The parser accepts exactly such records, so it never invents or drops a NAL. */
  lemma AvccExact(d: seq<byte>, nals: seq<seq<byte>>, lengthSize: byte)
    ensures ParseAvccRecord(d) == Config(nals, lengthSize)
       <==> nals != [] && exists r :: IsAvccOf(r, d, nals, lengthSize)
  {
    if ParseAvccRecord(d) == Config(nals, lengthSize) {
      var r := AvccSound(d);
    }
    if nals != [] && exists r :: IsAvccOf(r, d, nals, lengthSize) {
      var r :| IsAvccOf(r, d, nals, lengthSize);
      AvccRoundTrip(r);
    }
  }

  /** A rejected record leaves bytes in the output exactly when its SPS list is cut short after at
      least one unit; every other rejection clears it. */
  lemma ResidueExact(d: seq<byte>)
    requires ParseAvccRecord(d).Rejected?
    ensures ParseAvccRecord(d).residue != []
       <==> ReadNals(Avc, d[5] % 32, d[6..]).Truncated? && ReadNals(Avc, d[5] % 32, d[6..]).nals != []
  {
    if ReadNals(Avc, d[5] % 32, d[6..]).Truncated? {
      AnnexBEmpty(ReadNals(Avc, d[5] % 32, d[6..]).nals);
    }
  }

  /** Two SPS announced, the second one missing. */
  lemma ResidueExample()
    ensures ParseAvccRecord([1, 0, 0, 0, 255, 2, 0, 1, 0x67]) == Rejected([0, 0, 0, 1, 0x67])
  {
    var d: seq<byte> := [1, 0, 0, 0, 255, 2, 0, 1, 0x67];
    var body := d[6..];
    assert body == [0, 1] + [0x67] && body[..2] == [0, 1] && body[2..3] == [0x67];
    assert ReadBE([0, 1]) == 1 by {
      assert [0, 1][..1] == [0] && ReadBE([0]) == 0;
    }
    assert TakeNal(Avc, 2, body) == Some([0x67]);
    assert body[3..] == [];
    assert ReadNals(Avc, 1, []) == Truncated([]);
    AnnexBOne([0x67]);
  }

  /** Parses an avcC record. A truncated SPS list fails without clearing what was appended. */
  method ParseAvcc(data: seq<byte>, output: ByteVector, nalLengthSize: SizeBox?) returns (ok: bool)
    modifies output, nalLengthSize
    ensures ok == (nalLengthSize != null && ParseAvccRecord(data).Config?)
    ensures nalLengthSize == null ==> output.bytes == old(output.bytes)
    ensures nalLengthSize != null ==>
      match ParseAvccRecord(data)
      case Untouched => output.bytes == old(output.bytes) && nalLengthSize.value == old(nalLengthSize.value)
      case Rejected(residue) => output.bytes == residue && nalLengthSize.value == old(nalLengthSize.value)
      case Config(nals, size) => output.bytes == AnnexB(nals) && nalLengthSize.value == size
  {
    if nalLengthSize == null || |data| < 7 || data[0] != 1 || data[4] / 4 != 63 {
      return false;
    }
    output.bytes := [];
    var lengthSize: byte := data[4] % 4 + 1;
    var end, offset := AppendNalList(Avc, data[5] % 32, data, 6, output);
    assert forall nals :: [] + AnnexB(nals) == AnnexB(nals);
    if end == CutShort {
      return false;
    }
    if end == Malformed || offset >= |data| {
      output.bytes := [];
      return false;
    }
    ghost var sps, rest := ReadNals(Avc, data[5] % 32, data[6..]).nals, data[offset..];
    var ppsCount := data[offset];
    offset := offset + 1;
    assert rest[1..] == data[offset..] && rest[0] == ppsCount;
    end, offset := AppendNalList(Avc, ppsCount, data, offset, output);
    if end != Complete {
      output.bytes := [];
      return false;
    }
    ghost var pps := ReadNals(Avc, ppsCount, rest[1..]).nals;
    AnnexBConcat(sps, pps);
    AnnexBEmpty(sps + pps);
    if output.bytes == [] {
      return false;
    }
    nalLengthSize.value := lengthSize;
    return true;
  }

  lemma AnnexBEmpty(nals: seq<seq<byte>>)
    ensures AnnexB(nals) == [] <==> nals == []
  {
  }

  // ----- hvcC -----

  datatype NalArray = NalArray(kind: byte, nals: seq<seq<byte>>)

  /** One array: a type byte that is skipped, a NAL count and the NAL units. */
  function ReadArray(d: seq<byte>): Listing {
    if |d| < 3 then BadNal
    else
      match ReadNals(Hevc, ReadBE(d[1..3]), d[3..])
      case Listed(nals, rest) => Listed(nals, rest)
      case Truncated(_) => BadNal
      case BadNal => BadNal
  }

  function ReadArrays(count: nat, d: seq<byte>): Listing {
    if count == 0 then Listed([], d)
    else
      match ReadArray(d)
      case Listed(nals, rest) => Append(nals, ReadArrays(count - 1, rest))
      case Truncated(_) => BadNal
      case BadNal => BadNal
  }

  function ParseHvccRecord(d: seq<byte>): Parsed {
    if |d| < 23 || d[0] != 1 then Untouched
    else
      match ReadArrays(d[22], d[23..])
      case Listed(nals, _) => if nals == [] then Rejected([]) else Config(nals, d[21] % 4 + 1)
      case Truncated(_) => Rejected([])
      case BadNal => Rejected([])
  }

  predicate ValidArray(a: NalArray) {
    |a.nals| < Pow256(2) && AllValid(Hevc, a.nals) && SizesFit(2, a.nals)
  }

  predicate ValidArrays(arrays: seq<NalArray>) {
    forall k :: 0 <= k < |arrays| ==> ValidArray(arrays[k])
  }

  function EncodeArrays(arrays: seq<NalArray>): seq<byte>
    requires ValidArrays(arrays)
  {
    if arrays == [] then []
    else
      var a := arrays[0];
      [a.kind] + WriteBE(2, |a.nals|) + (Encode(2, a.nals) + EncodeArrays(arrays[1..]))
  }

  function Flatten(arrays: seq<NalArray>): seq<seq<byte>> {
    if arrays == [] then [] else arrays[0].nals + Flatten(arrays[1..])
  }

  lemma ArrayPrefix(kind: byte, size: seq<byte>, rest: seq<byte>)
    requires |size| == 2
    ensures var d := [kind] + size + rest; |d| >= 3 && d[1..3] == size && d[3..] == rest
  {
  }

  lemma {:induction false} ReadArraysComplete(arrays: seq<NalArray>, rest: seq<byte>)
    requires ValidArrays(arrays)
    ensures ReadArrays(|arrays|, EncodeArrays(arrays) + rest) == Listed(Flatten(arrays), rest)
  {
    if arrays == [] {
      assert EncodeArrays(arrays) + rest == rest;
    } else {
      var a, more := arrays[0], EncodeArrays(arrays[1..]);
      ReadArraysComplete(arrays[1..], rest);
      ArrayReassociate([a.kind] + WriteBE(2, |a.nals|), Encode(2, a.nals), more, rest);
      FirstArray(a, |arrays| - 1, more + rest);
    }
  }

  lemma ArrayReassociate(a: seq<byte>, b: seq<byte>, c: seq<byte>, d: seq<byte>)
    ensures a + (b + c) + d == a + (b + (c + d))
  {
  }

  lemma FirstArray(a: NalArray, more: nat, tail: seq<byte>)
    requires ValidArray(a)
    ensures ReadArrays(more + 1, [a.kind] + WriteBE(2, |a.nals|) + (Encode(2, a.nals) + tail))
         == Append(a.nals, ReadArrays(more, tail))
  {
    ArrayPrefix(a.kind, WriteBE(2, |a.nals|), Encode(2, a.nals) + tail);
    ReadWriteBE(2, |a.nals|);
    ReadNalsComplete(Hevc, a.nals, tail);
  }

  /** The parts of an hvcC record; the fixed header bytes are carried but never read. */
  datatype Hvcc = Hvcc(header: seq<byte>, packing: byte, arrays: seq<NalArray>, trailer: seq<byte>) {
    predicate Valid() {
      |header| == 20 && |arrays| < 256 && ValidArrays(arrays)
    }

    function Bytes(): seq<byte>
      requires Valid()
    {
      [1] + header + [packing, |arrays|] + (EncodeArrays(arrays) + trailer)
    }
  }

  /** Round trip: the parameter sets come back in array order, whatever the array types. */
  lemma HvccRoundTrip(r: Hvcc)
    requires r.Valid()
    ensures ParseHvccRecord(r.Bytes())
         == if Flatten(r.arrays) == [] then Rejected([]) else Config(Flatten(r.arrays), r.packing % 4 + 1)
  {
    Skip([1] + r.header + [r.packing, |r.arrays|], EncodeArrays(r.arrays) + r.trailer, 23);
    ReadArraysComplete(r.arrays, r.trailer);
  }

  /** An array that was read, with the bytes that follow it. */
  lemma ReadArraySound(d: seq<byte>) returns (a: NalArray)
    requires ReadArray(d).Listed?
    ensures ValidArray(a) && a.nals == ReadArray(d).nals
    ensures d == [a.kind] + WriteBE(2, |a.nals|) + (Encode(2, a.nals) + ReadArray(d).rest)
  {
    ReadNalsSound(Hevc, ReadBE(d[1..3]), d[3..]);
    WriteReadBE(d[1..3], 2, ReadBE(d[1..3]));
    a := NalArray(d[0], ReadArray(d).nals);
    assert d == [d[0]] + d[1..3] + d[3..];
  }

  lemma {:induction false} ReadArraysSound(count: nat, d: seq<byte>) returns (arrays: seq<NalArray>)
    requires ReadArrays(count, d).Listed?
    ensures |arrays| == count && ValidArrays(arrays) && Flatten(arrays) == ReadArrays(count, d).nals
    ensures d == EncodeArrays(arrays) + ReadArrays(count, d).rest
  {
    if count == 0 {
      arrays := [];
      assert d == [] + d;
    } else {
      var first := ReadArraySound(d);
      var tail := ReadArray(d).rest;
      var more := ReadArraysSound(count - 1, tail);
      arrays := [first] + more;
      ArraysCons(first, more, ReadArrays(count - 1, tail).rest, d);
    }
  }

  lemma ArraysCons(first: NalArray, more: seq<NalArray>, rest: seq<byte>, d: seq<byte>)
    requires ValidArray(first) && ValidArrays(more)
    requires d == [first.kind] + WriteBE(2, |first.nals|) + (Encode(2, first.nals) + (EncodeArrays(more) + rest))
    ensures ValidArrays([first] + more) && Flatten([first] + more) == first.nals + Flatten(more)
    ensures d == EncodeArrays([first] + more) + rest
  {
    hide WriteBE, Encode;
    var arrays := [first] + more;
    assert arrays[1..] == more && arrays[0] == first;
    assert forall k :: 0 < k < |arrays| ==> arrays[k] == more[k - 1];
    ArrayReassociate([first.kind] + WriteBE(2, |first.nals|), Encode(2, first.nals), EncodeArrays(more), rest);
  }

  ghost predicate IsHvccOf(r: Hvcc, d: seq<byte>, nals: seq<seq<byte>>, lengthSize: byte) {
    r.Valid() && d == r.Bytes() && nals == Flatten(r.arrays) && lengthSize == r.packing % 4 + 1
  }

  lemma HvccSound(d: seq<byte>) returns (r: Hvcc)
    requires ParseHvccRecord(d).Config?
    ensures IsHvccOf(r, d, ParseHvccRecord(d).nals, ParseHvccRecord(d).lengthSize)
  {
    var arrays := ReadArraysSound(d[22], d[23..]);
    r := Hvcc(d[1..21], d[21], arrays, ReadArrays(d[22], d[23..]).rest);
    assert d == [d[0]] + d[1..21] + [d[21], d[22]] + d[23..];
  }

  /** Acceptance is exactly being some hvcC record of these units, followed by any bytes. */
  lemma HvccExact(d: seq<byte>, nals: seq<seq<byte>>, lengthSize: byte)
    ensures ParseHvccRecord(d) == Config(nals, lengthSize)
       <==> nals != [] && exists r :: IsHvccOf(r, d, nals, lengthSize)
  {
    if ParseHvccRecord(d) == Config(nals, lengthSize) {
      var r := HvccSound(d);
    }
    if nals != [] && exists r :: IsHvccOf(r, d, nals, lengthSize) {
      var r :| IsHvccOf(r, d, nals, lengthSize);
      HvccRoundTrip(r);
    }
  }

  /** Appends the NAL units of the array at `offset`. */
  method AppendArray(data: seq<byte>, offset: nat, output: ByteVector) returns (ok: bool, next: nat)
    requires offset <= |data| && |output.bytes| + MAX_ARRAY <= SIZE_MAX
    modifies output
    ensures |output.bytes| <= old(|output.bytes|) + MAX_ARRAY
    ensures match ReadArray(data[offset..])
      case Listed(nals, rest) =>
        ok && output.bytes == old(output.bytes) + AnnexB(nals) && next <= |data| && data[next..] == rest
      case Truncated(_) => !ok
      case BadNal => !ok
  {
    if |data| - offset < 3 {
      return false, offset;
    }
    ArrayHeader(data, offset);
    var nalCount := ReadSize(data, offset + 1, 2);
    CountFits(nalCount);
    var end;
    end, next := AppendNalList(Hevc, nalCount, data, offset + 1 + 2, output);
    ok := end == Complete;
  }

  /** Appends the NAL units of `count` arrays. */
  method AppendArrays(count: byte, data: seq<byte>, start: nat, output: ByteVector) returns (ok: bool)
    requires start <= |data| && output.bytes == []
    modifies output
    ensures match ReadArrays(count, data[start..])
      case Listed(nals, _) => ok && output.bytes == AnnexB(nals)
      case Truncated(_) => !ok
      case BadNal => !ok
  {
    var offset: nat := start;
    ghost var rest, done: seq<seq<byte>> := data[start..], [];
    ghost var all := ReadArrays(count, rest);
    AppendNothing(all);
    for index := 0 to count
      invariant offset <= |data| && rest == data[offset..]
      invariant output.bytes == AnnexB(done) && |output.bytes| <= index * MAX_ARRAY
      invariant all == Append(done, ReadArrays(count - index, rest))
    {
      ArrayStep(all, done, count - index, rest);
      ArrayBudget(index);
      ghost var l := ReadArray(rest);
      ok, offset := AppendArray(data, offset, output);
      if !ok {
        return;
      }
      AnnexBConcat(done, l.nals);
      done, rest := done + l.nals, data[offset..];
    }
    assert done + [] == done;
    ok := true;
  }

  /** Parses an hvcC record; every rejection after the header check leaves `output` empty. */
  method ParseHvcc(data: seq<byte>, output: ByteVector, nalLengthSize: SizeBox?) returns (ok: bool)
    modifies output, nalLengthSize
    ensures ok == (nalLengthSize != null && ParseHvccRecord(data).Config?)
    ensures nalLengthSize == null ==> output.bytes == old(output.bytes)
    ensures nalLengthSize != null ==>
      match ParseHvccRecord(data)
      case Untouched => output.bytes == old(output.bytes) && nalLengthSize.value == old(nalLengthSize.value)
      case Rejected(residue) => output.bytes == residue == [] && nalLengthSize.value == old(nalLengthSize.value)
      case Config(nals, size) => output.bytes == AnnexB(nals) && nalLengthSize.value == size
  {
    if nalLengthSize == null || |data| < 23 || data[0] != 1 {
      return false;
    }
    var lengthSize: byte := data[21] % 4 + 1;
    var arrayCount := data[22];
    output.bytes := [];
    var complete := AppendArrays(arrayCount, data, 23, output);
    if !complete {
      output.bytes := [];
      return false;
    }
    AnnexBEmpty(ReadArrays(arrayCount, data[23..]).nals);
    if output.bytes == [] {
      return false;
    }
    nalLengthSize.value := lengthSize;
    return true;
  }

  lemma ArrayBudget(index: nat)
    requires index < 255
    ensures index * MAX_ARRAY + MAX_ARRAY == (index + 1) * MAX_ARRAY <= SIZE_MAX
  {
  }

  lemma CountFits(n: nat)
    ensures Pow256(2) == 0x1_0000
    ensures n < Pow256(2) ==> n * MAX_UNIT <= MAX_ARRAY
  {
    assert Pow256(2) == 256 * Pow256(1) && Pow256(1) == 256 * Pow256(0);
  }

  lemma ArrayHeader(data: seq<byte>, offset: nat)
    requires offset + 3 <= |data|
    ensures data[offset..][1..3] == data[offset + 1..offset + 1 + 2]
    ensures data[offset..][3..] == data[offset + 1 + 2..]
  {
  }

  lemma ArrayStep(all: Listing, done: seq<seq<byte>>, left: nat, rest: seq<byte>)
    requires all == Append(done, ReadArrays(left, rest)) && left > 0
    ensures match ReadArray(rest)
      case Listed(nals, tail) => all == Append(done + nals, ReadArrays(left - 1, tail))
      case Truncated(_) => all == BadNal
      case BadNal => all == BadNal
  {
    var l := ReadArray(rest);
    if l.Listed? {
      AppendTwice(done, l.nals, ReadArrays(left - 1, l.rest));
    }
  }
}
