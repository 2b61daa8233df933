/** Length-prefixed NAL units (section 5.3 of ISO/IEC 14496-15): each NAL is preceded by its
    size in one to four big-endian bytes. */
module LengthPrefixed {
  import opened Wrappers
  import opened Nal
  import opened AnnexBNormalizer

  function Pow256(n: nat): (p: nat)
    ensures p > 0
  {
    if n == 0 then 1 else 256 * Pow256(n - 1)
  }

  function ReadBE(s: seq<byte>): (v: nat)
    ensures v < Pow256(|s|)
  {
    if s == [] then 0 else ReadBE(s[..|s| - 1]) * 256 + s[|s| - 1]
  }

  function WriteBE(n: nat, v: nat): (s: seq<byte>)
    requires v < Pow256(n)
    ensures |s| == n
  {
    if n == 0 then [] else WriteBE(n - 1, v / 256) + [v % 256]
  }

  lemma {:induction false} ReadWriteBE(n: nat, v: nat)
    requires v < Pow256(n)
    ensures ReadBE(WriteBE(n, v)) == v
  {
    if n > 0 {
      ReadWriteBE(n - 1, v / 256);
      assert WriteBE(n, v)[..n - 1] == WriteBE(n - 1, v / 256);
    }
  }

  lemma {:induction false} WriteReadBE(s: seq<byte>, n: nat, v: nat)
    requires n == |s| && v == ReadBE(s)
    ensures v < Pow256(n) && WriteBE(n, v) == s
  {
    if n > 0 {
      WriteReadBE(s[..n - 1], n - 1, v / 256);
    }
  }

  predicate SizesFit(n: nat, nals: seq<seq<byte>>) {
    forall k :: 0 <= k < |nals| ==> |nals[k]| < Pow256(n)
  }

  function Prefixed(n: nat, nal: seq<byte>): seq<byte>
    requires |nal| < Pow256(n)
  {
    WriteBE(n, |nal|) + nal
  }

  function Encode(n: nat, nals: seq<seq<byte>>): seq<byte>
    requires SizesFit(n, nals)
  {
    if nals == [] then [] else Prefixed(n, nals[0]) + Encode(n, nals[1..])
  }

  /** The NAL at the front of `d`, if its prefix is complete and its header valid. */
  function TakeNal(codec: Codec, n: nat, d: seq<byte>): (r: Option<seq<byte>>)
    ensures r.Some? ==> |r.value| > 0 && n + |r.value| <= |d|
  {
    if |d| < n then None
    else
      var size := ReadBE(d[..n]);
      if size == 0 || size > |d| - n || !ValidHeader(codec, d[n..n + size]) then None
      else Some(d[n..n + size])
  }

  function Decode(codec: Codec, n: nat, d: seq<byte>): Option<seq<seq<byte>>>
    decreases |d|
  {
    if d == [] then Some([])
    else
      match TakeNal(codec, n, d)
      case None => None
      case Some(nal) => Prepend([nal], Decode(codec, n, d[n + |nal|..]))
  }

  function Prepend(done: seq<seq<byte>>, rest: Option<seq<seq<byte>>>): Option<seq<seq<byte>>> {
    match rest
    case None => None
    case Some(nals) => Some(done + nals)
  }

  lemma TakePrefixed(codec: Codec, n: nat, nal: seq<byte>, rest: seq<byte>)
    requires ValidHeader(codec, nal) && |nal| < Pow256(n)
    ensures TakeNal(codec, n, Prefixed(n, nal) + rest) == Some(nal)
    ensures (Prefixed(n, nal) + rest)[n + |nal|..] == rest
  {
    var d := Prefixed(n, nal) + rest;
    ReadWriteBE(n, |nal|);
    assert d[..n] == WriteBE(n, |nal|);
    assert d[n..n + |nal|] == nal;
  }

  lemma CutTwice(s: seq<byte>, a: nat, b: nat)
    requires a <= b <= |s|
    ensures s == s[..a] + s[a..b] + s[b..]
  {
  }

  lemma TakenIsPrefixed(codec: Codec, n: nat, d: seq<byte>)
    requires TakeNal(codec, n, d).Some?
    ensures var nal := TakeNal(codec, n, d).value;
      ValidHeader(codec, nal) && |nal| < Pow256(n) && d == Prefixed(n, nal) + d[n + |nal|..]
  {
    var nal := TakeNal(codec, n, d).value;
    WriteReadBE(d[..n], n, |nal|);
    CutTwice(d, n, n + |nal|);
  }

  lemma {:induction false} DecodeEncode(codec: Codec, n: nat, nals: seq<seq<byte>>)
    requires AllValid(codec, nals) && SizesFit(n, nals)
    ensures Decode(codec, n, Encode(n, nals)) == Some(nals)
  {
    if nals != [] {
      TakePrefixed(codec, n, nals[0], Encode(n, nals[1..]));
      DecodeEncode(codec, n, nals[1..]);
      assert [nals[0]] + nals[1..] == nals;
    }
  }

  lemma {:induction false} EncodeDecode(codec: Codec, n: nat, d: seq<byte>)
    requires Decode(codec, n, d).Some?
    ensures var nals := Decode(codec, n, d).value;
      AllValid(codec, nals) && SizesFit(n, nals) && Encode(n, nals) == d
    decreases |d|
  {
    if d != [] {
      TakenIsPrefixed(codec, n, d);
      var nal := TakeNal(codec, n, d).value;
      var rest := d[n + |nal|..];
      EncodeDecode(codec, n, rest);
      var nals := [nal] + Decode(codec, n, rest).value;
      assert nals[1..] == Decode(codec, n, rest).value;
    }
  }

  /** The decoder accepts exactly the encodings of valid NAL lists, and each encoding has
      one list. */
  lemma DecodeExact(codec: Codec, n: nat, d: seq<byte>, nals: seq<seq<byte>>)
    ensures Decode(codec, n, d) == Some(nals) <==> AllValid(codec, nals) && SizesFit(n, nals) && d == Encode(n, nals)
  {
    if Decode(codec, n, d) == Some(nals) {
      EncodeDecode(codec, n, d);
    }
    if AllValid(codec, nals) && SizesFit(n, nals) && d == Encode(n, nals) {
      DecodeEncode(codec, n, nals);
    }
  }

  /** Replacing n-byte prefixes by start codes changes the size by `4 - n` per NAL. */
  lemma {:induction false} AnnexBSize(n: nat, nals: seq<seq<byte>>)
    requires SizesFit(n, nals)
    ensures |AnnexB(nals)| + n * |nals| == |Encode(n, nals)| + 4 * |nals|
  {
    if nals != [] {
      AnnexBSize(n, nals[1..]);
      assert n * |nals| == n * |nals[1..]| + n;
    }
  }

  /** Converted NAL units that are start-code-free and do not end in zero are already
      normalised. */
  lemma ConvertedIsNormalized(codec: Codec, n: nat, d: seq<byte>)
    requires Decode(codec, n, d).Some? && d != []
    requires AllCanonical(codec, Decode(codec, n, d).value) && Fits(Decode(codec, n, d).value)
    ensures ParseAnnexB(codec, AnnexB(Decode(codec, n, d).value)) == Decode(codec, n, d)
  {
    AnnexBRoundTrip(codec, Decode(codec, n, d).value);
  }

  /** What the conversion yields: `None` is rejection, which includes the empty input. */
  function ParseLengthPrefixed(codec: Codec, n: nat, d: seq<byte>): Option<seq<seq<byte>>> {
    match Decode(codec, n, d)
    case None => None
    case Some(nals) => if nals != [] && Fits(nals) then Some(nals) else None
  }

  /** Reads the `n`-byte size at `offset`; 32 bits always hold it. */
  method ReadSize(data: seq<byte>, offset: nat, n: nat) returns (size: nat)
    requires n <= 4 && offset + n <= |data|
    ensures size == ReadBE(data[offset..offset + n]) < 0x1_0000_0000
  {
    size := 0;
    for index := 0 to n
      invariant size == ReadBE(data[offset..offset + index]) && size < Pow256(index)
      invariant Pow256(4) == 0x1_0000_0000 && index <= 4
    {
      assert data[offset..offset + index + 1][..index] == data[offset..offset + index];
      size := size * 256 + data[offset + index];
    }
    assert Pow256(3) == 0x100_0000 && Pow256(2) == 0x1_0000 && Pow256(1) == 0x100;
  }

  /** Where the conversion loop stands. */
  ghost predicate Converting(codec: Codec, n: nat, data: seq<byte>, done: seq<seq<byte>>, rest: seq<byte>,
                             output: seq<byte>) {
    && Decode(codec, n, data) == Prepend(done, Decode(codec, n, rest))
    && output == AnnexB(done) && AllValid(codec, done) && Fits(done)
  }

  lemma ConvertedOne(codec: Codec, n: nat, data: seq<byte>, done: seq<seq<byte>>, rest: seq<byte>, output: seq<byte>,
                     nal: seq<byte>, tail: seq<byte>)
    requires Converting(codec, n, data, done, rest, output) && rest != []
    requires TakeNal(codec, n, rest) == Some(nal) && CanAppend(codec, output, nal)
    requires tail == rest[n + |nal|..]
    ensures Converting(codec, n, data, done + [nal], tail, output + ([0, 0, 0, 1] + nal))
  {
    AnnexBSnoc(done, nal);
    assert output + [0, 0, 0, 1] + nal == output + ([0, 0, 0, 1] + nal);
    var more := Decode(codec, n, tail);
    if more.Some? {
      assert done + ([nal] + more.value) == done + [nal] + more.value;
    }
  }

  lemma ConvertFails(codec: Codec, n: nat, data: seq<byte>, done: seq<seq<byte>>, rest: seq<byte>, output: seq<byte>)
    requires Converting(codec, n, data, done, rest, output) && rest != []
    requires var nal := TakeNal(codec, n, rest); nal.Some? ==> !CanAppend(codec, output, nal.value)
    ensures ParseLengthPrefixed(codec, n, data) == None
  {
    var taken := TakeNal(codec, n, rest);
    if taken.Some? && Decode(codec, n, rest).Some? {
      var nals := Decode(codec, n, rest[n + |taken.value|..]).value;
      AnnexBSnoc(done, taken.value);
      AnnexBConcat(done + [taken.value], nals);
      assert done + ([taken.value] + nals) == done + [taken.value] + nals;
    }
  }

  /** One turn of the conversion loop: reads a prefix at `offset` and appends its NAL. */
  method AppendPrefixedNal(codec: Codec, data: seq<byte>, offset: nat, n: nat, output: ByteVector)
    returns (ok: bool, next: nat)
    requires 1 <= n <= 4 && offset < |data|
    modifies output
    ensures var nal := TakeNal(codec, n, data[offset..]);
      && ok == (nal.Some? && CanAppend(codec, old(output.bytes), nal.value))
      && (ok ==> offset < next <= |data| && data[next..] == data[offset..][n + |nal.value|..])
      && output.bytes == old(output.bytes) + if ok then [0, 0, 0, 1] + nal.value else []
  {
    if |data| - offset < n {
      return false, offset;
    }
    var nalSize := ReadSize(data, offset, n);
    TakeAt(codec, n, data, offset, nalSize);
    var start := offset + n;
    if nalSize == 0 || nalSize > |data| - start {
      return false, offset;
    }
    ok := AppendNal(codec, data[start..start + nalSize], output);
    next := start + nalSize;
  }

  /** Rewrites length prefixes to start codes. A bad prefix size leaves `output` as it was;
      every other rejection clears it. */
  method ConvertLengthPrefixed(codec: Codec, data: seq<byte>, nalLengthSize: byte, output: ByteVector)
    returns (ok: bool)
    modifies output
    ensures 1 <= nalLengthSize <= 4 ==>
      var nals := ParseLengthPrefixed(codec, nalLengthSize, data);
      ok == nals.Some? && output.bytes == if ok then AnnexB(nals.value) else []
    ensures !(1 <= nalLengthSize <= 4) ==> !ok && output.bytes == old(output.bytes)
  {
    if nalLengthSize < 1 || nalLengthSize > 4 {
      return false;
    }
    output.bytes := [];
    var offset := 0;
    ghost var done: seq<seq<byte>> := [];
    ghost var rest := data;
    PrependNothing(Decode(codec, nalLengthSize, data));
    while offset < |data|
      invariant offset <= |data| && rest == data[offset..]
      invariant Converting(codec, nalLengthSize, data, done, rest, output.bytes)
    {
      ghost var before, taken := output.bytes, TakeNal(codec, nalLengthSize, rest);
      var appended, next := AppendPrefixedNal(codec, data, offset, nalLengthSize, output);
      if !appended {
        ConvertFails(codec, nalLengthSize, data, done, rest, before);
        output.bytes := [];
        return false;
      }
      ConvertedOne(codec, nalLengthSize, data, done, rest, before, taken.value, data[next..]);
      done, rest := done + [taken.value], data[next..];
      offset := next;
    }
    assert done + [] == done;
    return output.bytes != [];
  }

  lemma TakeAt(codec: Codec, n: nat, data: seq<byte>, offset: nat, size: nat)
    requires offset + n <= |data| && size == ReadBE(data[offset..offset + n])
    ensures TakeNal(codec, n, data[offset..])
         == if size == 0 || size > |data| - offset - n || !ValidHeader(codec, data[offset + n..offset + n + size])
            then None else Some(data[offset + n..offset + n + size])
    ensures size <= |data| - offset - n ==> data[offset..][n + size..] == data[offset + n + size..]
  {
    assert data[offset..][..n] == data[offset..offset + n];
    if size <= |data| - offset - n {
      assert data[offset..][n..n + size] == data[offset + n..offset + n + size];
    }
  }

  lemma PrependNothing(r: Option<seq<seq<byte>>>)
    ensures Prepend([], r) == r
  {
    if r.Some? { assert [] + r.value == r.value; }
  }
}
