/** Extraction of the parameter sets from an Annex-B access unit. */
module CodecConfig {
  import opened Wrappers
  import opened Nal
  import opened AnnexBNormalizer

  /** The bit a NAL contributes to `foundTypes`; 0 for everything that is not a parameter set. */
  function TypeBit(codec: Codec, header: byte): nat {
    match codec
    case Avc => if header % 32 == 7 then 1 else if header % 32 == 8 then 2 else 0
    case Hevc =>
      var kind := header / 2 % 64;
      if kind == 32 then 1 else if kind == 33 then 2 else if kind == 34 then 4 else 0
  }

  predicate IsParameterSet(codec: Codec, nal: seq<byte>) {
    nal != [] && TypeBit(codec, nal[0]) != 0
  }

  /** The parameter sets of a NAL list, in order. */
  function ParameterSets(codec: Codec, nals: seq<seq<byte>>): seq<seq<byte>> {
    if nals == [] then []
    else (if IsParameterSet(codec, nals[0]) then [nals[0]] else []) + ParameterSets(codec, nals[1..])
  }

  function FoundTypes(codec: Codec, nals: seq<seq<byte>>): set<nat> {
    set nal <- nals | IsParameterSet(codec, nal) :: TypeBit(codec, nal[0])
  }

  /** SPS and PPS, or VPS, SPS and PPS. */
  function RequiredTypes(codec: Codec): set<nat> {
    if codec == Avc then {1, 2} else {1, 2, 4}
  }

  function Extract(codec: Codec, d: seq<byte>): Option<seq<byte>> {
    match ParseAnnexB(codec, d)
    case None => None
    case Some(nals) =>
      if FoundTypes(codec, nals) == RequiredTypes(codec) then Some(AnnexB(ParameterSets(codec, nals))) else None
  }

  // ----- the filter -----

  lemma {:induction false} ParameterSetsConcat(codec: Codec, a: seq<seq<byte>>, b: seq<seq<byte>>)
    ensures ParameterSets(codec, a + b) == ParameterSets(codec, a) + ParameterSets(codec, b)
  {
    if a == [] {
      assert a + b == b;
    } else {
      assert (a + b)[1..] == a[1..] + b && (a + b)[0] == a[0];
      ParameterSetsConcat(codec, a[1..], b);
      var head := if IsParameterSet(codec, a[0]) then [a[0]] else [];
      assert head + (ParameterSets(codec, a[1..]) + ParameterSets(codec, b))
          == head + ParameterSets(codec, a[1..]) + ParameterSets(codec, b);
    }
  }

  lemma ParameterSetsOne(codec: Codec, nal: seq<byte>)
    ensures ParameterSets(codec, [nal]) == if IsParameterSet(codec, nal) then [nal] else []
  {
    assert ParameterSets(codec, [nal][1..]) == [];
  }

  lemma {:induction false} ParameterSetsAre(codec: Codec, nals: seq<seq<byte>>)
    ensures var kept := ParameterSets(codec, nals);
      && (forall nal :: nal in kept <==> nal in nals && IsParameterSet(codec, nal))
      && ParameterSets(codec, kept) == kept
      && |AnnexB(kept)| <= |AnnexB(nals)|
  {
    if nals != [] {
      var head := if IsParameterSet(codec, nals[0]) then [nals[0]] else [];
      ParameterSetsAre(codec, nals[1..]);
      ParameterSetsConcat(codec, head, ParameterSets(codec, nals[1..]));
      ParameterSetsOne(codec, nals[0]);
      AnnexBConcat(head, ParameterSets(codec, nals[1..]));
      AnnexBOne(nals[0]);
      assert nals == [nals[0]] + nals[1..];
    }
  }

  /** The order in which the parameter sets are kept is their order in the access unit. */
  lemma {:induction false} ParameterSetsOrdered(codec: Codec, nals: seq<seq<byte>>, i: nat, j: nat)
    requires i < j < |nals| && IsParameterSet(codec, nals[i]) && IsParameterSet(codec, nals[j])
    ensures exists p, q ::
      0 <= p < q < |ParameterSets(codec, nals)|
      && ParameterSets(codec, nals)[p] == nals[i] && ParameterSets(codec, nals)[q] == nals[j]
  {
    var a, b := nals[..j], nals[j..];
    assert nals == a + b;
    ParameterSetsConcat(codec, a, b);
    ParameterSetsAre(codec, a);
    assert a[i] in a;
    var p :| 0 <= p < |ParameterSets(codec, a)| && ParameterSets(codec, a)[p] == nals[i];
    assert ParameterSets(codec, b)[0] == nals[j];
    var kept := ParameterSets(codec, nals);
    assert kept[p] == nals[i] && kept[|ParameterSets(codec, a)|] == nals[j];
  }

  lemma SameTypes(codec: Codec, nals: seq<seq<byte>>, kept: seq<seq<byte>>)
    requires forall nal :: nal in kept <==> nal in nals && IsParameterSet(codec, nal)
    ensures FoundTypes(codec, kept) == FoundTypes(codec, nals)
  {
  }

  /** Extracting from an extracted configuration changes nothing. */
  lemma ExtractIdempotent(codec: Codec, d: seq<byte>)
    requires Extract(codec, d).Some?
    ensures Extract(codec, Extract(codec, d).value) == Extract(codec, d)
  {
    var nals := ParseAnnexB(codec, d).value;
    var kept := ParameterSets(codec, nals);
    ParameterSetsAre(codec, nals);
    NormalizeIdempotent(codec, d);
    forall k | 0 <= k < |kept| ensures CanonicalNal(codec, kept[k]) {
      assert kept[k] in nals;
    }
    SameTypes(codec, nals, kept);
    assert 1 in FoundTypes(codec, kept);
    AnnexBRoundTrip(codec, kept);
  }

  // ----- the byte scan -----

  predicate CodeAt(s: seq<byte>, i: nat) {
    i + 4 <= |s| && s[i] == 0 && s[i + 1] == 0 && s[i + 2] == 0 && s[i + 3] == 1
  }

  /** The next four-byte start code, or the end of the buffer. */
  method FindNalEnd(normalized: seq<byte>, nalStart: nat) returns (nalEnd: nat)
    requires nalStart <= |normalized|
    ensures nalStart <= nalEnd <= |normalized|
    ensures nalEnd < |normalized| ==> CodeAt(normalized, nalEnd)
    ensures forall i: nat :: nalStart <= i < nalEnd ==> !CodeAt(normalized, i)
  {
    var index := nalStart;
    while index + 4 <= |normalized|
      invariant nalStart <= index <= |normalized|
      invariant forall i: nat :: nalStart <= i < index ==> !CodeAt(normalized, i)
    {
      if CodeAt(normalized, index) {
        return index;
      }
      index := index + 1;
    }
    return |normalized|;
  }

  /** In a canonical stream the next four-byte start code is exactly the end of the NAL. */
  lemma CodeIsBoundary(codec: Codec, s: seq<byte>, nal: seq<byte>, rest: seq<seq<byte>>, i: nat)
    requires CanonicalNal(codec, nal) && s == nal + AnnexB(rest)
    ensures i < |nal| ==> !CodeAt(s, i)
    ensures rest != [] ==> CodeAt(s, |nal|)
  {
    if i < |nal| {
      assert s[|nal| - 1] == nal[|nal| - 1] != 0;
      assert !PrefixAt(nal, i + 1);
      assert i + 4 <= |nal| ==> PrefixAt(nal, i + 1) == PrefixAt(s, i + 1);
    }
    if rest != [] {
      assert AnnexB(rest)[..4] == [0, 0, 0, 1];
      assert s[|nal|..][..4] == [0, 0, 0, 1];
    }
  }

  lemma ScanStep(codec: Codec, s: seq<byte>, offset: nat, nal: seq<byte>, rest: seq<seq<byte>>, end: nat)
    requires offset + 4 <= |s| && s[offset..] == [0, 0, 0, 1] + nal + AnnexB(rest) && CanonicalNal(codec, nal)
    requires offset + 4 <= end <= |s| && (end < |s| ==> CodeAt(s, end))
    requires forall i: nat :: offset + 4 <= i < end ==> !CodeAt(s, i)
    ensures s[offset..end] == [0, 0, 0, 1] + nal && s[end..] == AnnexB(rest) && s[offset + 4] == nal[0]
  {
    var start := offset + 4;
    var tail := s[start..];
    assert tail == s[offset..][4..] == nal + AnnexB(rest);
    forall i: nat ensures CodeAt(tail, i) == CodeAt(s, start + i) {}
    CodeIsBoundary(codec, tail, nal, rest, if end - start < |nal| then end - start else 0);
    assert rest != [] ==> CodeAt(s, start + |nal|);
    assert end == start + |nal|;
  }

  /** Where the scan stands: `left` is what it has not looked at yet. */
  ghost predicate Scanning(codec: Codec, nals: seq<seq<byte>>, normalized: seq<byte>, offset: nat,
                           done: seq<seq<byte>>, left: seq<seq<byte>>) {
    && nals == done + left && AllCanonical(codec, left)
    && offset <= |normalized| && normalized[offset..] == AnnexB(left)
  }

  lemma ScanOne(codec: Codec, nals: seq<seq<byte>>, s: seq<byte>, offset: nat, done: seq<seq<byte>>,
                left: seq<seq<byte>>, end: nat)
    requires Scanning(codec, nals, s, offset, done, left) && offset + 4 < |s|
    requires offset + 4 <= end <= |s| && (end < |s| ==> CodeAt(s, end))
    requires forall i: nat :: offset + 4 <= i < end ==> !CodeAt(s, i)
    ensures left != [] && left[0] != [] && s[offset..end] == AnnexB([left[0]]) && s[offset + 4] == left[0][0]
    ensures Scanning(codec, nals, s, end, done + [left[0]], left[1..])
  {
    assert left != [];
    AllCanonicalTail(codec, left);
    ScanStep(codec, s, offset, left[0], left[1..], end);
    AnnexBOne(left[0]);
    assert done + left == done + [left[0]] + left[1..];
  }

  lemma KeepOne(codec: Codec, done: seq<seq<byte>>, nal: seq<byte>)
    requires nal != []
    ensures AnnexB(ParameterSets(codec, done + [nal]))
         == AnnexB(ParameterSets(codec, done)) + if TypeBit(codec, nal[0]) != 0 then AnnexB([nal]) else []
    ensures FoundTypes(codec, done + [nal])
         == FoundTypes(codec, done) + if TypeBit(codec, nal[0]) != 0 then {TypeBit(codec, nal[0])} else {}
  {
    ParameterSetsConcat(codec, done, [nal]);
    ParameterSetsOne(codec, nal);
    AnnexBConcat(ParameterSets(codec, done), ParameterSets(codec, [nal]));
    assert forall x :: x in done + [nal] <==> x in done || x == nal;
  }

  /** The scan over a normalised stream, whose NAL units are `nals`. */
  method KeepParameterSets(codec: Codec, normalized: seq<byte>, ghost nals: seq<seq<byte>>, output: ByteVector)
    returns (ok: bool)
    requires normalized == AnnexB(nals) && AllCanonical(codec, nals)
    modifies output
    ensures ok == (FoundTypes(codec, nals) == RequiredTypes(codec))
    ensures output.bytes == if ok then AnnexB(ParameterSets(codec, nals)) else []
  {
    output.bytes := [];
    var foundTypes: set<nat> := {};
    var offset: nat := 0;
    ghost var done, left: seq<seq<byte>> := [], nals;
    while offset + 4 < |normalized|
      invariant Scanning(codec, nals, normalized, offset, done, left)
      invariant output.bytes == AnnexB(ParameterSets(codec, done))
      invariant foundTypes == FoundTypes(codec, done)
      decreases |normalized| - offset
    {
      var nalEnd := FindNalEnd(normalized, offset + 4);
      ScanOne(codec, nals, normalized, offset, done, left, nalEnd);
      ghost var nal := left[0];
      KeepOne(codec, done, nal);
      var typeBit := TypeBit(codec, normalized[offset + 4]);
      if typeBit != 0 {
        output.bytes := output.bytes + normalized[offset..nalEnd];
        foundTypes := foundTypes + {typeBit};
      }
      done, left := done + [nal], left[1..];
      offset := nalEnd;
    }
    ScanEnds(codec, nals, normalized, offset, done, left);
    if foundTypes != RequiredTypes(codec) {
      output.bytes := [];
      return false;
    }
    return true;
  }

  /** Copies the parameter sets of an access unit to `output`; a null input is rejected. */
  method ExtractCodecConfig(codec: Codec, data: Option<seq<byte>>, output: ByteVector?) returns (ok: bool)
    modifies output
    ensures ok == (output != null && data.Some? && Extract(codec, data.value).Some?)
    ensures output != null ==> output.bytes == if ok then Extract(codec, data.value).value else []
  {
    if output == null {
      return false;
    }
    if data.None? {
      output.bytes := [];
      return false;
    }
    var stream := new ByteVector();
    ok := NormalizeAnnexB(codec, data.value, stream);
    if !ok {
      output.bytes := [];
      return;
    }
    NormalizeIdempotent(codec, data.value);
    ok := KeepParameterSets(codec, stream.bytes, ParseAnnexB(codec, data.value).value, output);
  }

  lemma StreamSize(codec: Codec, nals: seq<seq<byte>>)
    requires AllCanonical(codec, nals)
    ensures nals == [] || |AnnexB(nals)| > 4
  {
    if nals != [] { AllCanonicalTail(codec, nals); }
  }

  lemma ScanEnds(codec: Codec, nals: seq<seq<byte>>, s: seq<byte>, offset: nat, done: seq<seq<byte>>,
                 left: seq<seq<byte>>)
    requires Scanning(codec, nals, s, offset, done, left) && offset + 4 >= |s|
    ensures nals == done
  {
    StreamSize(codec, left);
    assert done + [] == done;
  }
}
