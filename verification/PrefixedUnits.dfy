/** Access units of several NAL units with four-byte prefixes: exactly when the byte stream parser, which
    runs first, reads something else into them. */
module PrefixedUnits {
  import opened Wrappers
  import opened Nal
  import opened LengthPrefixed
  import opened Normalize

  predicate Sized(nal: seq<byte>) {
    0 < |nal| < 0x1_0000_0000
  }

  predicate AllSized(nals: seq<seq<byte>>) {
    forall k :: 0 <= k < |nals| ==> Sized(nals[k])
  }

  /** The NAL units as they are sent. */
  function Sent(nals: seq<seq<byte>>): seq<byte>
    requires AllSized(nals)
  {
    if nals == [] then [] else Four(|nals[0]|) + nals[0] + Sent(nals[1..])
  }

  /** Where the first start code lies in a prefixed NAL, 4 if there is none. It is told from the size and
      the first two bytes. */
  ghost function Code(nal: seq<byte>): (j: nat)
    ensures j <= 4 && (j < 4 ==> StartCodeIn(nal, j)) && forall i: nat :: i < j ==> !StartCodeIn(nal, i)
  {
    if StartCodeIn(nal, 0) then 0
    else if StartCodeIn(nal, 1) then 1
    else if StartCodeIn(nal, 2) then 2
    else if StartCodeIn(nal, 3) then 3
    else 4
  }

  /** Two start codes back to back, `00 00 01 00` before `00 01`: the NAL between them is empty. */
  ghost predicate Doubled(nal: seq<byte>) {
    StartCodeIn(nal, 0) && StartCodeIn(nal, 3)
  }

  /** What follows the last start code of a prefixed NAL. */
  ghost function Body(nal: seq<byte>): seq<byte>
    requires Code(nal) < 4
  {
    if Doubled(nal) then nal[2..]
    else
      match Code(nal)
      case 0 => [|nal| - 256] + nal
      case 1 => nal
      case 2 => nal[1..]
      case _ => nal[2..]
  }

  /** The bytes before the first start code, and what the byte stream parser sees between start codes. */
  ghost function Seen(nals: seq<seq<byte>>): (r: (seq<byte>, seq<seq<byte>>))
    requires AllSized(nals)
  {
    if nals == [] then ([], [])
    else
      var n, rest := nals[0], Seen(nals[1..]);
      if Code(n) == 4 then (Four(|n|) + n + rest.0, rest.1)
      else (Four(|n|)[..Code(n)], (if Doubled(n) then [[]] else []) + ([Body(n) + rest.0] + rest.1))
  }

  function Trims(units: seq<seq<byte>>): (t: seq<seq<byte>>)
    ensures |t| == |units|
  {
    if units == [] then [] else [Trim(units[0])] + Trims(units[1..])
  }

  lemma {:induction false} TrimsConcat(a: seq<seq<byte>>, b: seq<seq<byte>>)
    ensures Trims(a + b) == Trims(a) + Trims(b)
  {
    if a == [] {
      assert a + b == b;
    } else {
      assert (a + b)[1..] == a[1..] + b && (a + b)[0] == a[0];
      TrimsConcat(a[1..], b);
    }
  }

  /** Nothing that could begin a start code is left at the end. */
  ghost predicate Closed(s: seq<byte>) {
    PrefixFree(s) && (s == [] || s[|s| - 1] != 0)
  }

  lemma Join(a: seq<byte>, b: seq<byte>)
    requires Closed(a) && PrefixFree(b)
    ensures PrefixFree(a + b)
  {
    forall i: nat ensures !PrefixAt(a + b, i) {
      assert i + 3 <= |a| ==> PrefixAt(a + b, i) == PrefixAt(a, i);
      assert i >= |a| ==> PrefixAt(a + b, i) == PrefixAt(b, i - |a|);
      assert i < |a| ==> (a + b)[|a| - 1] == a[|a| - 1];
    }
  }

  /** The tail of a canonical NAL, with any byte in front of it that makes no start code. */
  lemma BodyClosed(nal: seq<byte>)
    requires Closed(nal) && Sized(nal) && Code(nal) < 4
    ensures Closed(Body(nal)) && Body(nal) != []
  {
    var size := |nal|;
    forall k: nat | k < size ensures Closed(nal[k..]) {
      TailPrefixFree(nal, k);
    }
    assert nal[0..] == nal;
    if Code(nal) == 0 && !Doubled(nal) {
      var s := [size - 256] + nal;
      PrefixPositions(nal, 3);
      SizeBytes(size, Four(size));
      assert Four(size)[3] == size - 256;
      forall i: nat ensures !PrefixAt(s, i) {
        assert i > 0 ==> PrefixAt(s, i) == PrefixAt(nal, i - 1);
        assert PrefixAt(s, 0) == PrefixAt(Four(size) + nal, 3);
      }
    }
  }

  /** Before its first start code, a prefixed NAL has no other. */
  lemma LeadFree(nal: seq<byte>)
    requires Closed(nal) && Sized(nal)
    ensures Code(nal) == 4 ==> PrefixFree(Four(|nal|) + nal)
    ensures Code(nal) < 4 ==> PrefixFree(Four(|nal|)[..Code(nal)])
  {
    var d := Four(|nal|) + nal;
    forall i: nat ensures PrefixAt(d, i) <==> StartCodeIn(nal, i) {
      PrefixPositions(nal, i);
    }
    if Code(nal) < 4 {
      var lead := Four(|nal|)[..Code(nal)];
      forall i: nat ensures !PrefixAt(lead, i) {
        assert i + 3 <= |lead| ==> PrefixAt(d, i) == PrefixAt(lead, i);
      }
    }
  }

  lemma CutHere(d: seq<byte>, j: nat)
    requires PrefixAt(d, j)
    ensures d == d[..j] + [0, 0, 1] + d[j + 3..]
  {
  }

  lemma DropPrefix(b: seq<byte>, nal: seq<byte>, k: nat)
    requires |b| == 4 && k <= |nal|
    ensures (b + nal)[4 + k..] == nal[k..] && (b + nal)[3..] == [b[3]] + nal
  {
  }

  lemma TailIs(nal: seq<byte>)
    requires Closed(nal) && Sized(nal) && Code(nal) < 4
    ensures (Four(|nal|) + nal)[Code(nal) + 3..] == (if Doubled(nal) then [0, 0, 1] else []) + Body(nal)
  {
    var size := |nal|;
    var b := Four(size);
    var d := b + nal;
    SizeBytes(size, b);
    hide Closed, Four;
    if Doubled(nal) {
      DropPrefix(b, nal, 2);
      assert nal == [0, 1] + nal[2..];
      assert [b[3]] + nal == [0, 0, 1] + nal[2..];
    } else {
      assert [] + Body(nal) == Body(nal);
      if Code(nal) == 0 {
        HeadByte(size);
        DropPrefix(b, nal, 0);
      } else {
        DropPrefix(b, nal, Code(nal) - 1);
        assert nal[0..] == nal;
      }
    }
  }

  lemma HeadByte(size: nat)
    requires 256 <= size < 512
    ensures Four(size)[3] == size - 256
  {
  }

  /** A prefixed NAL with a start code, cut there. */
  lemma CutAtCode(nal: seq<byte>)
    requires Closed(nal) && Sized(nal) && Code(nal) < 4
    ensures var lead := Four(|nal|)[..Code(nal)];
      Four(|nal|) + nal == lead + [0, 0, 1] + ((if Doubled(nal) then [0, 0, 1] else []) + Body(nal))
  {
    TailIs(nal);
    PrefixPositions(nal, Code(nal));
    hide Closed, Four, Body, Doubled, StartCodeIn;
    CutHere(Four(|nal|) + nal, Code(nal));
    assert (Four(|nal|) + nal)[..Code(nal)] == Four(|nal|)[..Code(nal)];
  }

  // ----- the byte stream parser on a list -----

  /** A split of `s` finds `head`, and then the units. */
  ghost predicate SplitsTo(head: seq<byte>, s: seq<byte>, units: seq<seq<byte>>) {
    && PrefixFree(head) && Split(s) == [Trim(head)] + Trims(units)
    && (units == [] ==> s == head)
    && (units != [] ==> FirstPrefix(s) == |head| && |head| + 3 <= |s| && Split(s[|head| + 3..]) == Trims(units))
  }

  /** What a split finds after `x`, which ends a unit or is empty. */
  ghost predicate SplitsAs(x: seq<byte>, nals: seq<seq<byte>>)
    requires AllSized(nals)
  {
    SplitsTo(x + Seen(nals).0, x + Sent(nals), Seen(nals).1)
  }

  lemma SplitNone(x: seq<byte>)
    requires Closed(x)
    ensures SplitsAs(x, [])
  {
    assert x + [] == x;
    FirstPrefixNone(x);
    SplitLast(x);
    assert [Trim(x)] + [] == [Trim(x)];
  }

  /** A NAL without a start code only makes the unit longer. */
  lemma SplitPlain(x: seq<byte>, nals: seq<seq<byte>>)
    requires AllSized(nals) && nals != [] && Code(nals[0]) == 4
    requires SplitsAs(x + (Four(|nals[0]|) + nals[0]), nals[1..])
    ensures SplitsAs(x, nals)
  {
    hide SplitsTo, Four, Code;
    var p, rest := Four(|nals[0]|) + nals[0], nals[1..];
    assert Sent(nals) == p + Sent(rest) && Seen(nals).0 == p + Seen(rest).0;
    assert x + (p + Sent(rest)) == (x + p) + Sent(rest);
    assert x + (p + Seen(rest).0) == (x + p) + Seen(rest).0;
  }

  lemma SplitAtCode(x: seq<byte>, lead: seq<byte>, tail: seq<byte>, s: seq<byte>, units: seq<seq<byte>>)
    requires Closed(x) && PrefixFree(lead) && s == x + (lead + [0, 0, 1] + tail)
    requires Split(tail) == Trims(units) && units != []
    ensures SplitsTo(x + lead, s, units)
  {
    Join(x, lead);
    assert s == (x + lead) + [0, 0, 1] + tail;
    assert s[|x + lead| + 3..] == tail;
    hide PrefixFree, Closed, Split, Trim, Trims, FirstPrefix;
    FirstPrefixAfter(x + lead, tail);
    SplitHead(s, x + lead, tail);
  }

  lemma SplitCoded(x: seq<byte>, nals: seq<seq<byte>>)
    requires AllSized(nals) && nals != [] && Code(nals[0]) < 4 && Closed(x) && Closed(nals[0])
    requires SplitsAs(Body(nals[0]), nals[1..])
    ensures SplitsAs(x, nals)
  {
    hide *;
    SeenCoded(nals);
    var n := nals[0];
    var after, lead := Sent(nals[1..]), Four(|n|)[..Code(n)];
    var double := if Doubled(n) then [0, 0, 1] else [];
    var tail := double + (Body(n) + after);
    CutAtCode(n);
    LeadFree(n);
    SentCoded(nals, lead, double, Body(n));
    BodySplits(Body(n), nals[1..]);
    TailSplits(n, Body(n) + after, tail, Body(n) + Seen(nals[1..]).0, Seen(nals[1..]).1);
    SplitAtCode(x, lead, tail, x + Sent(nals), Seen(nals).1);
    AsSplit(x, nals);
  }

  lemma AsSplit(x: seq<byte>, nals: seq<seq<byte>>)
    requires AllSized(nals) && SplitsTo(x + Seen(nals).0, x + Sent(nals), Seen(nals).1)
    ensures SplitsAs(x, nals)
  {
  }

  lemma SeenCoded(nals: seq<seq<byte>>)
    requires AllSized(nals) && nals != [] && Code(nals[0]) < 4
    ensures AllSized(nals[1..]) && Sized(nals[0]) && |nals[0]| < 0x1_0000_0000 && Seen(nals).1 != []
    ensures Seen(nals).0 == Four(|nals[0]|)[..Code(nals[0])]
    ensures Seen(nals).1 == (if Doubled(nals[0]) then [[]] else [])
                            + ([Body(nals[0]) + Seen(nals[1..]).0] + Seen(nals[1..]).1)
  {
    hide Code, Doubled, Body, Four;
  }

  lemma SentCoded(nals: seq<seq<byte>>, lead: seq<byte>, double: seq<byte>, body: seq<byte>)
    requires AllSized(nals) && nals != []
    requires Four(|nals[0]|) + nals[0] == lead + [0, 0, 1] + (double + body)
    ensures Sent(nals) == lead + [0, 0, 1] + (double + (body + Sent(nals[1..])))
  {
    hide Four;
  }

  lemma BodySplits(body: seq<byte>, rest: seq<seq<byte>>)
    requires AllSized(rest) && SplitsAs(body, rest)
    ensures Split(body + Sent(rest)) == [Trim(body + Seen(rest).0)] + Trims(Seen(rest).1)
  {
  }

  lemma TrimsCons(unit: seq<byte>, units: seq<seq<byte>>)
    ensures Trims([unit] + units) == [Trim(unit)] + Trims(units)
  {
    assert ([unit] + units)[1..] == units;
  }

  /** The empty NAL between two start codes back to back. */
  lemma TailSplits(n: seq<byte>, body: seq<byte>, tail: seq<byte>, first: seq<byte>, units: seq<seq<byte>>)
    requires tail == (if Doubled(n) then [0, 0, 1] else []) + body
    requires Split(body) == [Trim(first)] + Trims(units)
    ensures Split(tail) == Trims((if Doubled(n) then [[]] else []) + ([first] + units))
  {
    hide Doubled, Split, Trims;
    TrimsCons(first, units);
    if Doubled(n) {
      assert tail == [] + [0, 0, 1] + body;
      FirstPrefixAfter([], body);
      SplitHead(tail, [], body);
      TrimsCons([], [first] + units);
    } else {
      assert tail == body && [] + ([first] + units) == [first] + units;
    }
  }

  lemma {:induction false} ListSplits(x: seq<byte>, nals: seq<seq<byte>>)
    requires AllSized(nals) && Closed(x) && forall k :: 0 <= k < |nals| ==> Closed(nals[k])
    ensures SplitsAs(x, nals)
    decreases |nals|
  {
    hide SplitsAs, Closed, Four, Body, StartCodeIn;
    if nals == [] {
      SplitNone(x);
    } else if Code(nals[0]) == 4 {
      PlainClosed(x, nals[0]);
      ListSplits(x + (Four(|nals[0]|) + nals[0]), nals[1..]);
      SplitPlain(x, nals);
    } else {
      BodyClosed(nals[0]);
      ListSplits(Body(nals[0]), nals[1..]);
      SplitCoded(x, nals);
    }
  }

  lemma PlainClosed(x: seq<byte>, nal: seq<byte>)
    requires Closed(x) && Closed(nal) && Sized(nal) && Code(nal) == 4
    ensures Closed(x + (Four(|nal|) + nal))
  {
    LeadFree(nal);
    Join(x, Four(|nal|) + nal);
    hide PrefixFree;
  }

  // ----- the verdict -----

  lemma SentVerdict(codec: Codec, nals: seq<seq<byte>>)
    requires AllSized(nals) && forall k :: 0 <= k < |nals| ==> Closed(nals[k])
    ensures var units := Trims(Seen(nals).1);
      ParseAnnexB(codec, Sent(nals)) == if units != [] && AllValid(codec, units) && Fits(units) then Some(units) else None
  {
    ListSplits([], nals);
    var s, head := Sent(nals), [] + Seen(nals).0;
    assert [] + s == s;
    assert SplitsTo(head, s, Seen(nals).1);
    hide Seen, Sent, Split, Trim, AllValid, Fits;
    if Seen(nals).1 == [] {
      FirstPrefixNone(s);
    }
  }

  /** Whether a NAL with a start code in its prefix leaves a unit with a valid header behind it. */
  ghost predicate HeadValid(codec: Codec, nal: seq<byte>)
    requires Code(nal) < 4
  {
    !Doubled(nal) && ValidHeader(codec, Body(nal))
  }

  ghost predicate HeadsValid(codec: Codec, nals: seq<seq<byte>>) {
    forall k :: 0 <= k < |nals| && Code(nals[k]) < 4 ==> HeadValid(codec, nals[k])
  }

  ghost predicate SomeCode(nals: seq<seq<byte>>) {
    exists k :: 0 <= k < |nals| && Code(nals[k]) < 4
  }

  lemma {:induction false} TrimKeeps(body: seq<byte>, tail: seq<byte>)
    requires body != [] && body[|body| - 1] != 0
    ensures body <= Trim(body + tail)
    decreases |tail|
  {
    var s := body + tail;
    if tail == [] {
      assert s == body;
    } else if s[|s| - 1] == 0 {
      assert s[..|s| - 1] == body + tail[..|tail| - 1];
      TrimKeeps(body, tail[..|tail| - 1]);
    }
  }

  lemma SameHeader(codec: Codec, body: seq<byte>, unit: seq<byte>)
    requires body != [] && body <= unit && (codec == Avc || |body| >= 2)
    ensures ValidHeader(codec, unit) == ValidHeader(codec, body)
  {
    assert unit[0] == body[0] && (|body| >= 2 ==> unit[1] == body[1]);
  }

  lemma BodyLong(codec: Codec, nal: seq<byte>)
    requires CanonicalNal(codec, nal) && Sized(nal) && Code(nal) < 4
    ensures codec == Avc || |Body(nal)| >= 2
  {
  }

  lemma UnitValid(codec: Codec, nal: seq<byte>, lead: seq<byte>)
    requires CanonicalNal(codec, nal) && Sized(nal) && Code(nal) < 4
    ensures ValidHeader(codec, Trim(Body(nal) + lead)) == ValidHeader(codec, Body(nal))
  {
    CanonicalClosed(codec, nal);
    BodyClosed(nal);
    BodyLong(codec, nal);
    hide Body, Trim, ValidHeader, Code;
    TrimKeeps(Body(nal), lead);
    SameHeader(codec, Body(nal), Trim(Body(nal) + lead));
  }

  lemma CanonicalClosed(codec: Codec, nal: seq<byte>)
    requires CanonicalNal(codec, nal)
    ensures Closed(nal) && nal != []
  {
  }

  /** The units that the parser sees are valid exactly when each NAL with a start code leaves a valid
      one: what follows them does not matter. */
  lemma {:induction false} UnitsValid(codec: Codec, nals: seq<seq<byte>>)
    requires AllCanonical(codec, nals) && AllSized(nals)
    ensures AllValid(codec, Trims(Seen(nals).1)) <==> HeadsValid(codec, nals)
    ensures Seen(nals).1 != [] <==> SomeCode(nals)
  {
    if nals != [] {
      var n, rest := nals[0], nals[1..];
      UnitsValid(codec, rest);
      assert nals == [n] + rest;
      FirstUnit(codec, nals);
      FirstCoded(codec, nals);
    }
  }

  lemma FirstCoded(codec: Codec, nals: seq<seq<byte>>)
    requires nals != []
    ensures SomeCode(nals) <==> Code(nals[0]) < 4 || SomeCode(nals[1..])
    ensures HeadsValid(codec, nals) <==> (Code(nals[0]) < 4 ==> HeadValid(codec, nals[0])) && HeadsValid(codec, nals[1..])
  {
    hide Code, HeadValid;
    assert forall k :: 0 <= k < |nals| - 1 ==> nals[1..][k] == nals[k + 1];
    assert forall k :: 0 < k < |nals| ==> nals[k] == nals[1..][k - 1];
  }

  lemma FirstUnit(codec: Codec, nals: seq<seq<byte>>)
    requires AllCanonical(codec, nals) && AllSized(nals) && nals != []
    ensures Code(nals[0]) == 4 ==> Seen(nals).1 == Seen(nals[1..]).1
    ensures Code(nals[0]) < 4 ==>
      && Seen(nals).1 != []
      && (AllValid(codec, Trims(Seen(nals).1)) <==>
            HeadValid(codec, nals[0]) && AllValid(codec, Trims(Seen(nals[1..]).1)))
  {
    hide Code, Body, Doubled, Trim, ValidHeader, Four, CanonicalNal, Trims;
    var n, rest := nals[0], nals[1..];
    assert CanonicalNal(codec, n) && Sized(n);
    if Code(n) < 4 {
      SeenCoded(nals);
      UnitValid(codec, n, Seen(rest).0);
      FirstValid(codec, n, Body(n) + Seen(rest).0, Seen(rest).1);
    }
  }

  lemma FirstValid(codec: Codec, n: seq<byte>, first: seq<byte>, units: seq<seq<byte>>)
    ensures AllValid(codec, Trims((if Doubled(n) then [[]] else []) + ([first] + units)))
       <==> !Doubled(n) && ValidHeader(codec, Trim(first)) && AllValid(codec, Trims(units))
  {
    hide Doubled, Trims;
    TrimsCons(first, units);
    AllValidCons(codec, Trim(first), Trims(units));
    if Doubled(n) {
      TrimsCons([], [first] + units);
      AllValidCons(codec, Trim([]), Trims([first] + units));
    } else {
      assert [] + ([first] + units) == [first] + units;
    }
  }

  lemma AllValidCons(codec: Codec, nal: seq<byte>, nals: seq<seq<byte>>)
    ensures AllValid(codec, [nal] + nals) <==> ValidHeader(codec, nal) && AllValid(codec, nals)
  {
    assert ([nal] + nals)[0] == nal;
    assert forall k :: 0 <= k < |nals| ==> ([nal] + nals)[k + 1] == nals[k];
  }

  // ----- the access unit -----

  /** The byte stream parser accepts the prefixed units and finds others in them: some prefix holds a
      start code, each that does leaves a valid NAL behind it, and what lies between the start codes is
      not the same list by coincidence. */
  ghost predicate Misread(codec: Codec, nals: seq<seq<byte>>)
    requires AllSized(nals)
  {
    var units := Trims(Seen(nals).1);
    SomeCode(nals) && HeadsValid(codec, nals) && Fits(units) && units != nals
  }

  lemma OnePrefixed(nal: seq<byte>)
    requires Sized(nal)
    ensures |nal| < Pow256(4) && Prefixed(4, nal) == Four(|nal|) + nal
  {
    FourIsPrefix(nal);
    assert [nal][0] == nal;
    assert Encode(4, [nal]) == Prefixed(4, nal) + Encode(4, []);
  }

  lemma {:induction false} SentIsEncode(nals: seq<seq<byte>>)
    requires AllSized(nals)
    ensures SizesFit(4, nals) && Encode(4, nals) == Sent(nals)
  {
    hide Prefixed, Four, Pow256, Sized;
    forall k | 0 <= k < |nals| ensures |nals[k]| < Pow256(4) {
      OnePrefixed(nals[k]);
    }
    if nals != [] {
      OnePrefixed(nals[0]);
      SentIsEncode(nals[1..]);
    }
  }

  /** An access unit of canonical NAL units with four-byte prefixes comes back as it was sent exactly when
      it is not misread. */
  lemma FourBytePrefixesExact(codec: Codec, nals: seq<seq<byte>>)
    requires nals != [] && AllCanonical(codec, nals) && AllSized(nals) && Fits(nals)
    ensures SizesFit(4, nals)
    ensures (Parse(codec, Encode(4, nals), 4, false, true) == Some(Stream(nals, 4))) <==> !Misread(codec, nals)
  {
    hide Parse, ParseAnnexB, Seen, Trims, SomeCode, HeadsValid;
    forall k | 0 <= k < |nals| ensures Closed(nals[k]) {
      CanonicalClosed(codec, nals[k]);
    }
    SentIsEncode(nals);
    SentVerdict(codec, nals);
    UnitsValid(codec, nals);
    LengthPrefixedAccessUnit(codec, 4, nals);
  }

  /** Units of 2 to 255 bytes are safe, whatever they hold. */
  lemma ShortUnitsSafe(codec: Codec, nals: seq<seq<byte>>)
    requires nals != [] && AllCanonical(codec, nals) && Fits(nals)
    requires forall k :: 0 <= k < |nals| ==> 2 <= |nals[k]| < 256
    ensures SizesFit(4, nals) && Parse(codec, Encode(4, nals), 4, false, true) == Some(Stream(nals, 4))
  {
    hide Parse, Seen, Trims, HeadsValid, Encode, AllCanonical, Fits;
    assert forall k :: 0 <= k < |nals| ==> Sized(nals[k]) && Code(nals[k]) == 4;
    FourBytePrefixesExact(codec, nals);
  }
}
