/** The normaliser's dispatch: configuration records, byte streams, length prefixes and raw
    NAL units are tried in a fixed order. */
module Normalize {
  import opened Wrappers
  import opened Nal
  import opened AnnexBNormalizer
  import opened LengthPrefixed
  import opened ConfigRecord

  const DEFAULT_NAL_LENGTH_SIZE: byte := 4

  /** NAL units together with the length size reported to the caller. */
  datatype Stream = Stream(nals: seq<seq<byte>>, lengthSize: byte)

  function PreferredSize(preferred: byte): (n: byte)
    ensures 1 <= n <= 4
  {
    if 1 <= preferred <= 4 then preferred else DEFAULT_NAL_LENGTH_SIZE
  }

  /** The first of the candidate sizes under which the whole input is length-prefixed. */
  function DetectLength(codec: Codec, d: seq<byte>, candidates: seq<byte>): Option<Stream> {
    if candidates == [] then None
    else
      match ParseLengthPrefixed(codec, candidates[0], d)
      case Some(nals) => Some(Stream(nals, candidates[0]))
      case None => DetectLength(codec, d, candidates[1..])
  }

  function Candidates(preferred: byte): seq<byte> {
    [PreferredSize(preferred), 4, 2, 1]
  }

  function ParseRaw(codec: Codec, d: seq<byte>, preferred: byte): Option<Stream> {
    if CanAppend(codec, [], d) then Some(Stream([d], PreferredSize(preferred))) else None
  }

  function ParseUnits(codec: Codec, d: seq<byte>, preferred: byte): Option<Stream> {
    match ParseAnnexB(codec, d)
    case Some(nals) => Some(Stream(nals, PreferredSize(preferred)))
    case None =>
      match DetectLength(codec, d, Candidates(preferred))
      case Some(s) => Some(s)
      case None => ParseRaw(codec, d, preferred)
  }

  function OfRecord(r: Parsed, sizeWanted: bool): Option<Stream> {
    if r.Config? && sizeWanted then Some(Stream(r.nals, r.lengthSize)) else None
  }

  predicate IsRecord(codec: Codec, d: seq<byte>, config: bool) {
    config && d != [] && d[0] == 1 && |d| >= if codec == Avc then 7 else 23
  }

  function RecordOf(codec: Codec, d: seq<byte>): Parsed {
    if codec == Avc then ParseAvccRecord(d) else ParseHvccRecord(d)
  }

  /** A record is only recognised in configuration data; a caller that passes no place for
      its length size cannot have it parsed. */
  function Parse(codec: Codec, d: seq<byte>, preferred: byte, config: bool, sizeWanted: bool): Option<Stream> {
    if d == [] then None
    else if IsRecord(codec, d, config) then OfRecord(RecordOf(codec, d), sizeWanted)
    else ParseUnits(codec, d, preferred)
  }

  // ----- the operations -----

  ghost predicate Reports(r: Option<Stream>, ok: bool, output: ByteVector, size: SizeBox?, sizeBefore: byte)
    reads output, size
  {
    && ok == r.Some?
    && (ok ==> output.bytes == AnnexB(r.value.nals))
    && (size != null ==> size.value == if ok then r.value.lengthSize else sizeBefore)
  }

  lemma SkipAttempted(codec: Codec, d: seq<byte>, candidates: seq<byte>, k: nat)
    requires k < |candidates| && ParseLengthPrefixed(codec, candidates[k], d).None?
    ensures DetectLength(codec, d, candidates[k..]) == DetectLength(codec, d, candidates[k + 1..])
  {
    assert candidates[k..][1..] == candidates[k + 1..];
  }

  /** Tries the preferred length size, then 4, 2 and 1, each at most once. */
  method TryLengthSizes(codec: Codec, data: seq<byte>, preferred: byte, output: ByteVector, size: SizeBox?)
    returns (ok: bool)
    modifies output, size
    ensures Reports(DetectLength(codec, data, Candidates(preferred)), ok, output, size,
                    if size != null then old(size.value) else 0)
    ensures !ok ==> output.bytes == []
  {
    var candidates := Candidates(preferred);
    var attempted: set<byte> := {};
    for k := 0 to 4
      invariant DetectLength(codec, data, candidates) == DetectLength(codec, data, candidates[k..])
      invariant forall c <- attempted :: ParseLengthPrefixed(codec, c, data).None?
      invariant size != null ==> size.value == old(size.value)
      invariant if k == 0 then attempted == {} else output.bytes == []
    {
      var candidate := candidates[k];
      assert 1 <= candidate <= 4;
      if candidate != 0 && candidate !in attempted {
        attempted := attempted + {candidate};
        ok := ConvertLengthPrefixed(codec, data, candidate, output);
        if ok {
          if size != null {
            size.value := candidate;
          }
          return true;
        }
      }
      SkipAttempted(codec, data, candidates, k);
    }
    ok := false;
  }

  method NormalizeRawNal(codec: Codec, data: seq<byte>, output: ByteVector) returns (ok: bool)
    modifies output
    ensures ok == CanAppend(codec, [], data)
    ensures output.bytes == if ok then AnnexB([data]) else []
  {
    output.bytes := [];
    ok := AppendNal(codec, data, output);
    AnnexBOne(data);
  }

  /** Normalises configuration data or an access unit. Only a record can fail without leaving
      `output` empty; empty input leaves it untouched. */
  method NormalizeStream(codec: Codec, data: Option<seq<byte>>, preferred: byte, output: ByteVector?, size: SizeBox?,
                         config: bool)
    returns (ok: bool)
    modifies output, size
    ensures data.None? || output == null ==> !ok && (size != null ==> size.value == old(size.value))
    ensures data.Some? && output != null ==>
      Reports(Parse(codec, data.value, preferred, config, size != null), ok, output, size,
              if size != null then old(size.value) else 0)
    ensures output != null && data == Some([]) ==> output.bytes == old(output.bytes)
    ensures output != null && data.Some? && data.value != [] && !IsRecord(codec, data.value, config) && !ok ==>
      output.bytes == []
    ensures output != null && data.Some? && IsRecord(codec, data.value, config) && !ok ==>
      output.bytes == if size != null && RecordOf(codec, data.value).Rejected? then RecordOf(codec, data.value).residue
                      else old(output.bytes)
  {
    if data.None? || output == null || data.value == [] {
      return false;
    }
    var d := data.value;
    if config && codec == Avc && d[0] == 1 && |d| >= 7 {
      ok := ParseAvcc(d, output, size);
      return;
    }
    if config && codec == Hevc && d[0] == 1 && |d| >= 23 {
      ok := ParseHvcc(d, output, size);
      return;
    }
    ok := NormalizeAnnexB(codec, d, output);
    if !ok {
      ok := TryLengthSizes(codec, d, preferred, output, size);
      if ok {
        return;
      }
      ok := NormalizeRawNal(codec, d, output);
    }
    if ok && size != null {
      size.value := PreferredSize(preferred);
    }
  }

  // ----- what every success means -----

  lemma DetectedIsValid(codec: Codec, d: seq<byte>, candidates: seq<byte>)
    requires DetectLength(codec, d, candidates).Some?
    requires forall c <- candidates :: 1 <= c <= 4
    ensures var s := DetectLength(codec, d, candidates).value;
      s.nals != [] && AllValid(codec, s.nals) && Fits(s.nals) && 1 <= s.lengthSize <= 4
  {
    assert candidates[0] in candidates && forall c <- candidates[1..] :: c in candidates;
    if ParseLengthPrefixed(codec, candidates[0], d).Some? {
      EncodeDecode(codec, candidates[0], d);
    } else {
      DetectedIsValid(codec, d, candidates[1..]);
    }
  }

  lemma {:induction false} ArraysValid(count: nat, d: seq<byte>)
    requires ReadArrays(count, d).Listed?
    ensures AllValid(Hevc, ReadArrays(count, d).nals)
  {
    if count > 0 {
      assert ReadArray(d).Listed?;
      var l := ReadArray(d);
      ReadNalsSound(Hevc, ReadBE(d[1..3]), d[3..]);
      ArraysValid(count - 1, l.rest);
    }
  }

  /** Whatever form the input had, success yields at least one NAL, every NAL with a valid
      header, and a length size that later access units can be parsed with. */
  lemma ParsedIsValid(codec: Codec, d: seq<byte>, preferred: byte, config: bool, sizeWanted: bool)
    requires Parse(codec, d, preferred, config, sizeWanted).Some?
    ensures var s := Parse(codec, d, preferred, config, sizeWanted).value;
      s.nals != [] && AllValid(codec, s.nals) && 1 <= s.lengthSize <= 4
  {
    if config && codec == Avc && d[0] == 1 && |d| >= 7 {
      var r := AvccSound(d);
    } else if config && codec == Hevc && d[0] == 1 && |d| >= 23 {
      ArraysValid(d[22], d[23..]);
    } else if ParseAnnexB(codec, d).None? && DetectLength(codec, d, Candidates(preferred)).Some? {
      DetectedIsValid(codec, d, Candidates(preferred));
    }
  }

  /** An empty-handed parse of the byte stream is what a length-prefixed access unit needs:
      then, and only then or when the byte stream happens to hold the same NAL units, it comes
      back as it was encoded. */
  lemma LengthPrefixedAccessUnit(codec: Codec, n: byte, nals: seq<seq<byte>>)
    requires 1 <= n <= 4 && nals != [] && AllValid(codec, nals) && SizesFit(n, nals) && Fits(nals)
    ensures var d := Encode(n, nals);
      (Parse(codec, d, n, false, true) == Some(Stream(nals, n)))
        <==> (ParseAnnexB(codec, d).None? || ParseAnnexB(codec, d) == Some(nals))
  {
    var d := Encode(n, nals);
    DecodeEncode(codec, n, nals);
    assert Candidates(n)[0] == n;
    assert d != [] by { assert |Prefixed(n, nals[0])| > 0; }
  }

  // ----- one NAL with a four-byte prefix: exactly when the byte stream parser takes it -----

  /** The prefix, alone or with the first bytes of the NAL, reads as a start code that leaves
      other bytes behind it. */
  predicate Hijacked(codec: Codec, nal: seq<byte>) {
    var size := |nal|;
    if 256 <= size < 512 then ValidHeader(codec, [size - 256] + nal)
    else
      || (size % 0x1_0000 == 0 && size > 0 && nal[0] == 1 && ValidHeader(codec, nal[1..]))
      || (size % 0x100 == 0 && size > 0 && nal[0] == 0 && nal[1] == 1 && ValidHeader(codec, nal[2..]))
  }

  function Four(size: nat): (b: seq<byte>)
    requires size < 0x1_0000_0000
    ensures |b| == 4
  {
    [size / 0x100_0000, size / 0x1_0000 % 0x100, size / 0x100 % 0x100, size % 0x100]
  }

  lemma FourIsPrefix(nal: seq<byte>)
    requires |nal| < 0x1_0000_0000
    ensures SizesFit(4, [nal]) && Encode(4, [nal]) == Four(|nal|) + nal
  {
    var size := |nal|;
    assert Pow256(1) == 0x100 && Pow256(2) == 0x1_0000 && Pow256(3) == 0x100_0000 && Pow256(4) == 0x1_0000_0000;
    assert WriteBE(1, size / 0x100 / 0x100 / 0x100) == [size / 0x100_0000];
    assert WriteBE(2, size / 0x100 / 0x100) == [size / 0x100_0000] + [size / 0x1_0000 % 0x100];
    assert WriteBE(4, size) == Four(size);
    assert Encode(4, [nal]) == Prefixed(4, nal) + Encode(4, []);
  }

  lemma SizeSplits(size: nat) returns (b0: int, b1: int, b2: int, b3: int)
    requires size < 0x1_0000_0000
    ensures Four(size) == [b0, b1, b2, b3]
    ensures 0 <= b0 < 256 && 0 <= b1 < 256 && 0 <= b2 < 256 && 0 <= b3 < 256
    ensures size == b0 * 0x100_0000 + b1 * 0x1_0000 + b2 * 0x100 + b3
  {
    b0, b1, b2, b3 := size / 0x100_0000, size / 0x1_0000 % 0x100, size / 0x100 % 0x100, size % 0x100;
    assert size / 0x1_0000 == b0 * 0x100 + b1;
    assert size / 0x100 == (size / 0x1_0000) * 0x100 + b2;
  }

  lemma SizeBytes(size: nat, b: seq<byte>)
    requires size < 0x1_0000_0000 && b == Four(size)
    ensures (b[0] == 0 && b[1] == 0 && b[2] == 1) <==> 256 <= size < 512
    ensures (b[1] == 0 && b[2] == 0 && b[3] == 1) <==> size % 0x100_0000 == 1
    ensures (b[2] == 0 && b[3] == 0) <==> size % 0x1_0000 == 0
    ensures b[3] == 0 <==> size % 0x100 == 0
  {
    var b0, b1, b2, b3 := SizeSplits(size);
    assert b[0] == b0 && b[1] == b1 && b[2] == b2 && b[3] == b3;
    var low := b1 * 0x1_0000 + b2 * 0x100 + b3;
    assert size == b0 * 0x100_0000 + low && 0 <= low < 0x100_0000;
    assert size % 0x100_0000 == low;
  }

  /** Where a start code can lie in a prefixed NAL that has none itself. */
  ghost predicate StartCodeIn(nal: seq<byte>, j: nat) {
    var size := |nal|;
    || (j == 0 && 256 <= size < 512)
    || (j == 1 && size % 0x100_0000 == 1)
    || (j == 2 && size % 0x1_0000 == 0 && size > 0 && nal[0] == 1)
    || (j == 3 && size % 0x100 == 0 && size > 0 && nal[0] == 0 && nal[1] == 1)
  }

  lemma PrefixPositions(nal: seq<byte>, j: nat)
    requires PrefixFree(nal) && 0 < |nal| < 0x1_0000_0000
    ensures PrefixAt(Four(|nal|) + nal, j) <==> StartCodeIn(nal, j)
  {
    var b := Four(|nal|);
    var d := b + nal;
    SizeBytes(|nal|, b);
    if j >= 4 {
      assert !PrefixAt(nal, j - 4);
    } else {
      assert d[0] == b[0] && d[1] == b[1] && d[2] == b[2] && d[3] == b[3] && d[4] == nal[0];
      assert |nal| >= 2 ==> d[5] == nal[1];
    }
  }

  function OneNal(codec: Codec, nal: seq<byte>): Option<seq<seq<byte>>> {
    if ValidHeader(codec, nal) then Some([nal]) else None
  }

  lemma OneUnitAfter(codec: Codec, d: seq<byte>, j: nat, nal: seq<byte>)
    requires PrefixAt(d, j) && (forall i: nat :: i < j ==> !PrefixAt(d, i)) && d[j + 3..] == nal
    requires PrefixFree(nal) && nal != [] && nal[|nal| - 1] != 0 && |nal| + 4 <= SIZE_MAX
    ensures ParseAnnexB(codec, d) == OneNal(codec, nal)
  {
    FirstPrefixIs(d, j);
    FirstPrefixNone(nal);
    SplitLast(nal);
    assert nal + Zeros(0) == nal;
    TrimPadded(nal, 0);
    AnnexBOne(nal);
    assert AllValid(codec, [nal]) <==> ValidHeader(codec, nal) by {
      assert [nal][0] == nal;
    }
  }

  lemma TailPrefixFree(nal: seq<byte>, k: nat)
    requires PrefixFree(nal) && k <= |nal|
    ensures PrefixFree(nal[k..])
  {
    forall i: nat ensures !PrefixAt(nal[k..], i) {
      assert !PrefixAt(nal, k + i);
    }
  }

  /** The last prefix byte in front of the NAL: a second start code there leaves an empty NAL. */
  lemma HeadedVerdict(codec: Codec, d: seq<byte>, head: byte, nal: seq<byte>)
    requires PrefixAt(d, 0) && d[3..] == [head] + nal
    requires PrefixFree(nal) && nal != [] && nal[|nal| - 1] != 0 && |nal| + 5 <= SIZE_MAX
    ensures ParseAnnexB(codec, d) == OneNal(codec, [head] + nal)
  {
    var s := [head] + nal;
    forall i: nat ensures i > 0 ==> !PrefixAt(s, i) {
      assert i > 0 ==> PrefixAt(s, i) == PrefixAt(nal, i - 1);
    }
    if PrefixAt(s, 0) {
      FirstPrefixIs(d, 0);
      FirstPrefixIs(s, 0);
      assert Split(s)[0] == Trim(s[..0]) == [];
      assert s[0] == 0 && s[1] == 0;
    } else {
      OneUnitAfter(codec, d, 0, s);
    }
  }

  /** The byte stream parser's verdict on one prefixed NAL. */
  lemma PrefixedVerdict(codec: Codec, nal: seq<byte>)
    requires CanonicalNal(codec, nal) && |nal| < 0x1_0000_0000
    ensures var d, size := Four(|nal|) + nal, |nal|;
      ParseAnnexB(codec, d)
        == if StartCodeIn(nal, 0) then OneNal(codec, [size - 256] + nal)
           else if StartCodeIn(nal, 1) then Some([nal])
           else if StartCodeIn(nal, 2) then OneNal(codec, nal[1..])
           else if StartCodeIn(nal, 3) then OneNal(codec, nal[2..])
           else None
  {
    var d, size := Four(|nal|) + nal, |nal|;
    forall j: nat ensures PrefixAt(d, j) <==> StartCodeIn(nal, j) { PrefixPositions(nal, j); }
    if StartCodeIn(nal, 0) {
      assert d[3..] == [size - 256] + nal;
      HeadedVerdict(codec, d, size - 256, nal);
    } else if StartCodeIn(nal, 1) {
      assert d[4..] == nal;
      OneUnitAfter(codec, d, 1, nal);
    } else if StartCodeIn(nal, 2) {
      assert d[5..] == nal[1..];
      TailPrefixFree(nal, 1);
      OneUnitAfter(codec, d, 2, nal[1..]);
    } else if StartCodeIn(nal, 3) {
      assert d[6..] == nal[2..];
      TailPrefixFree(nal, 2);
      OneUnitAfter(codec, d, 3, nal[2..]);
    } else {
      FirstPrefixNone(d);
    }
  }

  /** A four-byte length-prefixed access unit of one canonical NAL comes back as that NAL
      exactly when it is not hijacked. NAL sizes 256 to 511 are the common failing case. */
  lemma FourBytePrefixExact(codec: Codec, nal: seq<byte>)
    requires CanonicalNal(codec, nal) && |nal| < 0x1_0000_0000
    ensures SizesFit(4, [nal])
    ensures (Parse(codec, Encode(4, [nal]), 4, false, true) == Some(Stream([nal], 4))) <==> !Hijacked(codec, nal)
  {
    var size := |nal|;
    FourIsPrefix(nal);
    AnnexBOne(nal);
    LengthPrefixedAccessUnit(codec, 4, [nal]);
    PrefixedVerdict(codec, nal);
    if StartCodeIn(nal, 0) {
      assert |[size - 256] + nal| == size + 1;
    }
  }

  /** A concrete access unit that is misread: 260 bytes, whose prefix is 00 00 01 04. */
  lemma HijackedExample()
    ensures var nal := [0x65] + seq(259, _ => 1);
      && CanonicalNal(Avc, nal) && SizesFit(4, [nal])
      && Parse(Avc, Encode(4, [nal]), 4, false, true) != Some(Stream([nal], 4))
  {
    var nal: seq<byte> := [0x65] + seq(259, _ => 1);
    forall i: nat ensures !PrefixAt(nal, i) {
      assert i + 3 <= |nal| ==> nal[i] != 0;
    }
    assert [|nal| - 256] + nal != [] && ([|nal| - 256] + nal)[0] == 4;
    FourBytePrefixExact(Avc, nal);
  }
}
