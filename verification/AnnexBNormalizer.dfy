/** The byte stream normaliser: start code search, NAL appending and the split loop. */
module AnnexBNormalizer {
  import opened Wrappers
  import opened Nal

  datatype StartCode = StartCode(offset: nat, size: nat) {
    function End(): nat { offset + size }
  }

  /** `code` is the first start code at or after `from`; the zero byte before a prefix
      belongs to it. */
  predicate IsNextStartCode(data: seq<byte>, from: nat, found: bool, code: StartCode)
    requires from <= |data|
  {
    var p := FindPrefix(data, from);
    && found == (p < |data|)
    && (found ==> code == if p > from && data[p - 1] == 0 then StartCode(p - 1, 4) else StartCode(p, 3))
  }

  /** Finds the first three- or four-byte start code at or after `offset`. */
  method FindStartCode(data: seq<byte>, offset: nat) returns (found: bool, code: StartCode)
    ensures offset <= |data| ==> IsNextStartCode(data, offset, found, code)
    ensures offset > |data| ==> !found
  {
    found, code := false, StartCode(0, 0);
    var index := offset;
    while index + 3 <= |data|
      invariant offset <= index
      invariant offset <= |data| ==> index <= |data| && FindPrefix(data, offset) == FindPrefix(data, index)
      invariant index > offset ==> index + 2 <= |data| && !(data[index - 1] == 0 && PrefixAt(data, index))
    {
      if data[index] == 0 && data[index + 1] == 0 {
        if data[index + 2] == 1 {
          return true, StartCode(index, 3);
        }
        if index + 4 <= |data| && data[index + 2] == 0 && data[index + 3] == 1 {
          assert FindPrefix(data, index) == FindPrefix(data, index + 1) == index + 1;
          return true, StartCode(index, 4);
        }
      }
      index := index + 1;
    }
  }

  predicate CanAppend(codec: Codec, output: seq<byte>, nal: seq<byte>) {
    ValidHeader(codec, nal) && |output| + 4 + |nal| <= SIZE_MAX
  }

  /** Appends one start code and one NAL, or leaves the output alone. */
  method AppendNal(codec: Codec, nal: seq<byte>, output: ByteVector) returns (ok: bool)
    modifies output
    ensures ok <==> CanAppend(codec, old(output.bytes), nal)
    ensures output.bytes == old(output.bytes) + if ok then [0, 0, 0, 1] + nal else []
  {
    if !ValidHeader(codec, nal) || |output.bytes| > SIZE_MAX - 4 || |nal| > SIZE_MAX - |output.bytes| - 4 {
      return false;
    }
    output.bytes := output.bytes + [0, 0, 0, 1];
    output.bytes := output.bytes + nal;
    return true;
  }

  /** Strips trailing zero bytes down to `nalStart`. */
  method TrimEnd(data: seq<byte>, nalStart: nat, end: nat) returns (nalEnd: nat)
    requires nalStart <= end <= |data|
    ensures nalStart <= nalEnd <= end && data[nalStart..nalEnd] == Trim(data[nalStart..end])
  {
    nalEnd := end;
    while nalEnd > nalStart && data[nalEnd - 1] == 0
      invariant nalStart <= nalEnd <= end
      invariant Trim(data[nalStart..nalEnd]) == Trim(data[nalStart..end])
    {
      TrimOneZero(data, nalStart, nalEnd - 1, nalEnd);
      nalEnd := nalEnd - 1;
    }
  }

  /** A prefix found in the middle of the buffer is the first prefix of the rest of it. */
  lemma SuffixPrefix(data: seq<byte>, from: nat)
    requires from <= |data|
    ensures FirstPrefix(data[from..]) == FindPrefix(data, from) - from
  {
    var rest := data[from..];
    var p := FindPrefix(data, from) - from;
    FindPrefixIsFirst(data, from);
    forall j: nat ensures PrefixAt(rest, j) == PrefixAt(data, from + j) {}
    if p < |rest| {
      FirstPrefixIs(rest, p);
    } else {
      forall j: nat ensures !PrefixAt(rest, j) {
        assert PrefixAt(rest, j) == PrefixAt(data, from + j);
      }
      FirstPrefixNone(rest);
    }
  }

  lemma SplitAt(data: seq<byte>, start: nat, p: nat)
    requires start <= |data| && p == FindPrefix(data, start)
    ensures Split(data[start..]) == [Trim(data[start..p])] + if p < |data| then Split(data[p + 3..]) else []
  {
    SuffixPrefix(data, start);
    FindPrefixIsFirst(data, start);
    var rest, head := data[start..], data[start..p];
    if p < |data| {
      assert rest == head + [0, 0, 1] + data[p + 3..];
      SplitHead(rest, head, data[p + 3..]);
    } else {
      assert rest == head;
      SplitLast(rest);
    }
  }

  /** The zero byte of a four-byte start code is trimmed like any other. */
  lemma TrimOneZero(data: seq<byte>, start: nat, q: nat, p: nat)
    requires start <= q < |data| && p == q + 1 && data[q] == 0
    ensures Trim(data[start..q]) == Trim(data[start..p])
  {
    assert data[start..p][..q - start] == data[start..q];
  }

  /** The NAL units after the start code that a search reported, none when it found nothing. */
  ghost function RestAfter(data: seq<byte>, found: bool, code: StartCode): seq<seq<byte>> {
    if found && code.End() <= |data| then Split(data[code.End()..]) else []
  }

  ghost function Limit(data: seq<byte>, found: bool, next: StartCode): nat {
    if found then next.offset else |data|
  }

  /** The NAL before the start code is what lies before its prefix, once trimmed. */
  lemma LimitTrims(data: seq<byte>, start: nat, found: bool, next: StartCode)
    requires start <= |data| && IsNextStartCode(data, start, found, next)
    ensures var p := FindPrefix(data, start);
      && start <= Limit(data, found, next) <= |data| && found == (p < |data|) && (found ==> next.End() == p + 3)
      && Trim(data[start..Limit(data, found, next)]) == Trim(data[start..p])
  {
    hide Trim;
    if found && next.size == 4 {
      TrimOneZero(data, start, next.offset, FindPrefix(data, start));
    }
  }

  /** One search step peels one NAL off the list. */
  lemma SplitStep(data: seq<byte>, current: StartCode, found: bool, next: StartCode)
    requires current.End() <= |data|
    requires IsNextStartCode(data, current.End(), found, next)
    ensures var start := current.End();
      && start <= Limit(data, found, next) <= |data|
      && (found ==> start < next.End() <= |data|)
      && RestAfter(data, true, current)
           == [Trim(data[start..Limit(data, found, next)])] + RestAfter(data, found, next)
  {
    hide Trim, Split, IsNextStartCode, Limit;
    var start := current.End();
    LimitTrims(data, start, found, next);
    SplitAt(data, start, FindPrefix(data, start));
  }

  ghost function Verdict(codec: Codec, nals: seq<seq<byte>>): Option<seq<seq<byte>>> {
    if AllValid(codec, nals) && Fits(nals) then Some(nals) else None
  }

  lemma FirstStep(codec: Codec, data: seq<byte>, code: StartCode)
    requires IsNextStartCode(data, 0, true, code)
    ensures code.End() <= |data|
    ensures ParseAnnexB(codec, data) == Verdict(codec, RestAfter(data, true, code))
  {
  }

  /** Where the loop stands: `done` is in `output` and `rest` is still to be appended. */
  ghost predicate Progress(codec: Codec, all: seq<seq<byte>>, done: seq<seq<byte>>, output: seq<byte>,
                           rest: seq<seq<byte>>) {
    all == done + rest && output == AnnexB(done) && AllValid(codec, done) && Fits(done)
  }

  lemma Appended(codec: Codec, all: seq<seq<byte>>, done: seq<seq<byte>>, output: seq<byte>, nal: seq<byte>,
                 rest: seq<seq<byte>>)
    requires Progress(codec, all, done, output, [nal] + rest) && CanAppend(codec, output, nal)
    ensures Progress(codec, all, done + [nal], output + ([0, 0, 0, 1] + nal), rest)
  {
    AnnexBSnoc(done, nal);
    assert done + ([nal] + rest) == done + [nal] + rest;
    assert output + [0, 0, 0, 1] + nal == output + ([0, 0, 0, 1] + nal);
  }

  /** A NAL that cannot be appended rejects the whole list. */
  lemma Rejected(codec: Codec, all: seq<seq<byte>>, done: seq<seq<byte>>, output: seq<byte>, nal: seq<byte>,
                 rest: seq<seq<byte>>)
    requires Progress(codec, all, done, output, [nal] + rest) && !CanAppend(codec, output, nal)
    ensures Verdict(codec, all) == None
  {
    assert all[|done|] == nal;
    assert all == done + [nal] + rest;
    AnnexBConcat(done + [nal], rest);
    AnnexBSnoc(done, nal);
  }

  lemma Complete(codec: Codec, all: seq<seq<byte>>, done: seq<seq<byte>>, output: seq<byte>)
    requires Progress(codec, all, done, output, [])
    ensures Verdict(codec, all) == Some(all) && output == AnnexB(all)
  {
    assert all == done;
  }

  /** Rewrites a byte stream to four-byte start codes without trailing zeros. */
  method NormalizeAnnexB(codec: Codec, data: seq<byte>, output: ByteVector) returns (ok: bool)
    modifies output
    ensures ok <==> ParseAnnexB(codec, data).Some?
    ensures output.bytes == if ok then AnnexB(ParseAnnexB(codec, data).value) else []
  {
    output.bytes := [];
    var found, current := FindStartCode(data, 0);
    if !found {
      return false;
    }
    ghost var all := RestAfter(data, true, current);
    FirstStep(codec, data, current);
    ghost var rest, done: seq<seq<byte>> := all, [];
    while true
      invariant current.End() <= |data| && rest == RestAfter(data, true, current)
      invariant Progress(codec, all, done, output.bytes, rest)
      decreases |data| - current.End()
    {
      var nalStart := current.End();
      var hasNext, next := FindStartCode(data, nalStart);
      SplitStep(data, current, hasNext, next);
      var nalEnd := TrimEnd(data, nalStart, if hasNext then next.offset else |data|);
      var nal := data[nalStart..nalEnd];
      ghost var whole, before := rest, output.bytes;
      rest := RestAfter(data, hasNext, next);
      assert whole == [nal] + rest;
      var appended := false;
      if nalEnd > nalStart {
        appended := AppendNal(codec, nal, output);
      }
      if !appended {
        Rejected(codec, all, done, before, nal, rest);
        output.bytes := [];
        return false;
      }
      Appended(codec, all, done, before, nal, rest);
      done := done + [nal];
      if !hasNext {
        Complete(codec, all, done, output.bytes);
        return true;
      }
      current := next;
    }
  }
}
