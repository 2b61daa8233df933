/** Selection of the H.264 level (section A.3.1 and Table A-1 of ITU-T H.264). */
module H264Level {
  import opened Wrappers
  import opened Integers

  datatype Profile = Baseline | ConstrainedBaseline | Main | High

  /** Rows in ascending order; the index of a row is the level's number. */
  datatype LevelLimit = LevelLimit(macroblocksPerSecond: nat, macroblocksPerFrame: nat, maximumDimension: nat,
                                   bitrateKbps: nat)

  const LEVEL_LIMITS: seq<LevelLimit> := [
    LevelLimit(1485, 99, 28, 64),
    LevelLimit(1485, 99, 28, 128),
    LevelLimit(3000, 396, 56, 192),
    LevelLimit(6000, 396, 56, 384),
    LevelLimit(11880, 396, 56, 768),
    LevelLimit(11880, 396, 56, 2000),
    LevelLimit(19800, 792, 79, 4000),
    LevelLimit(20250, 1620, 113, 4000),
    LevelLimit(40500, 1620, 113, 10000),
    LevelLimit(108000, 3600, 169, 14000),
    LevelLimit(216000, 5120, 202, 20000),
    LevelLimit(245760, 8192, 256, 20000),
    LevelLimit(245760, 8192, 256, 50000),
    LevelLimit(522240, 8704, 263, 50000),
    LevelLimit(589824, 22080, 420, 135000),
    LevelLimit(983040, 36864, 543, 240000),
    LevelLimit(2073600, 36864, 543, 240000)
  ]

  function Max(a: int, b: int): int {
    if a > b then a else b
  }

  /** What a stream asks of a level. */
  datatype Demand = Demand(perSecond: nat, perFrame: nat, dimension: nat, kbps: nat)

  predicate Meets(limit: LevelLimit, d: Demand) {
    && d.perSecond <= limit.macroblocksPerSecond
    && d.perFrame <= limit.macroblocksPerFrame
    && d.dimension <= limit.maximumDimension
    && d.kbps <= limit.bitrateKbps
  }

  function FirstLevel(d: Demand, from: nat): (level: Option<nat>)
    requires from <= |LEVEL_LIMITS|
    ensures level.Some? ==> from <= level.value < |LEVEL_LIMITS| && Meets(LEVEL_LIMITS[level.value], d)
    ensures forall i :: from <= i < (if level.Some? then level.value else |LEVEL_LIMITS|) ==> !Meets(LEVEL_LIMITS[i], d)
    decreases |LEVEL_LIMITS| - from
  {
    if from == |LEVEL_LIMITS| then None
    else if Meets(LEVEL_LIMITS[from], d) then Some(from)
    else FirstLevel(d, from + 1)
  }

  // ----- the code: 32-bit rounding, 64-bit products -----

  /** `(x + 15u) / 16u`: the addition wraps. */
  function MacroblocksWrapping(x: uint32): nat {
    (x + 15) % UINT32 / 16
  }

  /** `bitrate` in units of the profile's scale, rounded up. */
  function Kbps(bitrate: nat, profile: Profile): nat {
    if profile == High then (bitrate + 1249) / 1250 else (bitrate + 999) / 1000
  }

  function CodedDemand(width: uint32, height: uint32, frameRate: uint32, bitrate: uint32, profile: Profile): Demand {
    var w, h := MacroblocksWrapping(width), MacroblocksWrapping(height);
    var perFrame := w * h % UINT64;
    Demand(perFrame * frameRate % UINT64, perFrame, Max(w, h), Kbps(bitrate, profile))
  }

  function FindMinimumLevel(width: uint32, height: uint32, frameRate: uint32, bitrate: uint32, profile: Profile)
    : Option<nat>
  {
    if width == 0 || height == 0 || frameRate == 0 || bitrate == 0 then None
    else FirstLevel(CodedDemand(width, height, frameRate, bitrate, profile), 0)
  }

  // ----- the standard: unbounded integers -----

  function Macroblocks(x: nat): nat {
    (x + 15) / 16
  }

  function TrueDemand(width: nat, height: nat, frameRate: nat, bitrate: nat, profile: Profile): Demand {
    var w, h := Macroblocks(width), Macroblocks(height);
    Demand(w * h * frameRate, w * h, Max(w, h), Kbps(bitrate, profile))
  }

  /** Level `i` of Table A-1 covers the stream. */
  predicate Admits(i: nat, width: nat, height: nat, frameRate: nat, bitrate: nat, profile: Profile)
    requires i < |LEVEL_LIMITS|
  {
    Meets(LEVEL_LIMITS[i], TrueDemand(width, height, frameRate, bitrate, profile))
  }

  predicate NoWrap(x: uint32) {
    x + 15 < UINT32
  }

  // ----- the table -----

  /** No limit ever decreases, and each dimension limit is floor(sqrt(8 * MaxFS)). */
  lemma {:induction false} TableExact(i: nat, j: nat)
    requires i <= j < |LEVEL_LIMITS|
    ensures var a, b := LEVEL_LIMITS[i], LEVEL_LIMITS[j];
      && a.macroblocksPerSecond <= b.macroblocksPerSecond && a.macroblocksPerFrame <= b.macroblocksPerFrame
      && a.maximumDimension <= b.maximumDimension && a.bitrateKbps <= b.bitrateKbps
      && a.maximumDimension * a.maximumDimension <= 8 * a.macroblocksPerFrame
           < (a.maximumDimension + 1) * (a.maximumDimension + 1)
    decreases j - i
  {
    if i < j {
      TableExact(i + 1, j);
      assert i == 0 || i == 1 || i == 2 || i == 3 || i == 4 || i == 5 || i == 6 || i == 7
          || i == 8 || i == 9 || i == 10 || i == 11 || i == 12 || i == 13 || i == 14 || i == 15;
    }
  }

  lemma HigherLevelsMeet(i: nat, j: nat, d: Demand)
    requires i <= j < |LEVEL_LIMITS| && Meets(LEVEL_LIMITS[i], d)
    ensures Meets(LEVEL_LIMITS[j], d)
  {
    TableExact(i, j);
  }

  // ----- code against standard -----

  lemma MulMonotone(a: nat, b: nat, k: nat)
    requires a <= b
    ensures a * k <= b * k && k * a <= k * b
    ensures k > 0 && a < b ==> a * k < b * k
  {
  }

  /** No product wraps for a frame that any level allows. */
  lemma RateAgrees(perFrame: nat, frameRate: nat)
    requires frameRate < UINT32 && perFrame <= 36864
    ensures perFrame * frameRate % UINT64 == perFrame * frameRate
  {
    MulMonotone(perFrame, 36864, frameRate);
  }

  lemma CodedFields(width: uint32, height: uint32, frameRate: uint32, bitrate: uint32, profile: Profile)
    requires NoWrap(width) && NoWrap(height)
    ensures var d, t := CodedDemand(width, height, frameRate, bitrate, profile),
                        TrueDemand(width, height, frameRate, bitrate, profile);
      && d.perFrame == t.perFrame && d.dimension == t.dimension && d.kbps == t.kbps
      && (t.perFrame <= 36864 ==> d.perSecond == t.perSecond)
  {
    var w, h := Macroblocks(width), Macroblocks(height);
    Rounding(width);
    Rounding(height);
    SmallProduct(w, h);
    if w * h <= 36864 {
      RateAgrees(w * h, frameRate);
    }
  }

  lemma Rounding(x: uint32)
    ensures if NoWrap(x) then MacroblocksWrapping(x) == Macroblocks(x) < 0x1000_0000
            else MacroblocksWrapping(x) == 0 && Macroblocks(x) >= 0x1000_0000
  {
  }

  lemma SmallProduct(w: nat, h: nat)
    requires w < 0x1000_0000 && h < 0x1000_0000
    ensures w * h % UINT64 == w * h
  {
    MulMonotone(w, 0x1000_0000, h);
  }

  /** For every level, the 64-bit arithmetic decides like the unbounded one. */
  lemma DemandsAgree(width: uint32, height: uint32, frameRate: uint32, bitrate: uint32, profile: Profile, i: nat)
    requires NoWrap(width) && NoWrap(height) && i < |LEVEL_LIMITS|
    ensures Meets(LEVEL_LIMITS[i], CodedDemand(width, height, frameRate, bitrate, profile))
       <==> Admits(i, width, height, frameRate, bitrate, profile)
  {
    CodedFields(width, height, frameRate, bitrate, profile);
    TopLevel(i);
  }

  lemma TopLevel(i: nat)
    requires i < |LEVEL_LIMITS|
    ensures var l := LEVEL_LIMITS[i];
      && l.macroblocksPerFrame <= 36864 && l.maximumDimension <= 543 && l.bitrateKbps <= 240000
    ensures |LEVEL_LIMITS| == 17 && LEVEL_LIMITS[16] == LevelLimit(2073600, 36864, 543, 240000)
  {
    TableExact(i, 16);
  }

  lemma FirstLevelAgrees(a: Demand, b: Demand, from: nat)
    requires from <= |LEVEL_LIMITS|
    requires forall i :: 0 <= i < |LEVEL_LIMITS| ==> (Meets(LEVEL_LIMITS[i], a) <==> Meets(LEVEL_LIMITS[i], b))
    ensures FirstLevel(a, from) == FirstLevel(b, from)
    decreases |LEVEL_LIMITS| - from
  {
    if from < |LEVEL_LIMITS| {
      FirstLevelAgrees(a, b, from + 1);
    }
  }

  /** The level chosen on unbounded integers. */
  function SpecLevel(width: nat, height: nat, frameRate: nat, bitrate: nat, profile: Profile): Option<nat> {
    if width == 0 || height == 0 || frameRate == 0 || bitrate == 0 then None
    else FirstLevel(TrueDemand(width, height, frameRate, bitrate, profile), 0)
  }

  /** The chosen level is exactly the least level that covers the stream, and every higher
      level covers it too. */
  lemma {:induction false} LeastLevel(width: nat, height: nat, frameRate: nat, bitrate: nat, profile: Profile, i: nat)
    requires width > 0 && height > 0 && frameRate > 0 && bitrate > 0 && i < |LEVEL_LIMITS|
    ensures Admits(i, width, height, frameRate, bitrate, profile)
       <==> var level := SpecLevel(width, height, frameRate, bitrate, profile); level.Some? && level.value <= i
  {
    var d := TrueDemand(width, height, frameRate, bitrate, profile);
    var level := FirstLevel(d, 0);
    if level.Some? && level.value <= i {
      HigherLevelsMeet(level.value, i, d);
    }
  }

  lemma Agrees(width: uint32, height: uint32, frameRate: uint32, bitrate: uint32, profile: Profile)
    requires NoWrap(width) && NoWrap(height)
    ensures FindMinimumLevel(width, height, frameRate, bitrate, profile)
         == SpecLevel(width, height, frameRate, bitrate, profile)
  {
    if frameRate > 0 {
      forall i | 0 <= i < |LEVEL_LIMITS|
        ensures Meets(LEVEL_LIMITS[i], CodedDemand(width, height, frameRate, bitrate, profile))
           <==> Meets(LEVEL_LIMITS[i], TrueDemand(width, height, frameRate, bitrate, profile))
      {
        DemandsAgree(width, height, frameRate, bitrate, profile, i);
      }
      FirstLevelAgrees(CodedDemand(width, height, frameRate, bitrate, profile),
                       TrueDemand(width, height, frameRate, bitrate, profile), 0);
    }
  }

  /** A wrapped dimension counts as zero macroblocks, so the frame looks empty. */
  lemma WrappedLevel(width: uint32, height: uint32, frameRate: uint32, bitrate: uint32, profile: Profile)
    requires !(NoWrap(width) && NoWrap(height)) && width > 0 && height > 0 && frameRate > 0 && bitrate > 0
    ensures SpecLevel(width, height, frameRate, bitrate, profile) == None
    ensures var d := CodedDemand(width, height, frameRate, bitrate, profile);
      FindMinimumLevel(width, height, frameRate, bitrate, profile).Some? <==> d.dimension <= 543 && d.kbps <= 240000
  {
    Rounding(width);
    Rounding(height);
    TooLarge(TrueDemand(width, height, frameRate, bitrate, profile));
    EmptyFrame(MacroblocksWrapping(width), MacroblocksWrapping(height), frameRate);
    FirstOfEmpty(CodedDemand(width, height, frameRate, bitrate, profile));
  }

  lemma TooLarge(t: Demand)
    requires t.dimension > 543
    ensures FirstLevel(t, 0) == None
  {
    var level := FirstLevel(t, 0);
    if level.Some? { TopLevel(level.value); }
  }

  lemma EmptyFrame(w: nat, h: nat, frameRate: nat)
    requires w == 0 || h == 0
    ensures w * h % UINT64 == 0 && w * h % UINT64 * frameRate % UINT64 == 0
  {
    assert w * h == 0;
  }

  lemma FirstOfEmpty(d: Demand)
    requires d.perFrame == 0 && d.perSecond == 0
    ensures FirstLevel(d, 0).Some? <==> d.dimension <= 543 && d.kbps <= 240000
  {
    var level := FirstLevel(d, 0);
    TopLevel(16);
    if level.Some? { TopLevel(level.value); }
  }

  /** The code agrees with the standard exactly when neither dimension wraps, an argument is
      zero, or what is left of the request is out of reach of every level anyway. */
  lemma FindMinimumLevelExact(width: uint32, height: uint32, frameRate: uint32, bitrate: uint32, profile: Profile)
    ensures
      (FindMinimumLevel(width, height, frameRate, bitrate, profile)
         == SpecLevel(width, height, frameRate, bitrate, profile))
      <==>
      (|| (NoWrap(width) && NoWrap(height))
       || width == 0 || height == 0 || frameRate == 0 || bitrate == 0
       || (var d := CodedDemand(width, height, frameRate, bitrate, profile); d.dimension > 543 || d.kbps > 240000))
  {
    if NoWrap(width) && NoWrap(height) {
      Agrees(width, height, frameRate, bitrate, profile);
    } else if width > 0 && height > 0 && frameRate > 0 && bitrate > 0 {
      WrappedLevel(width, height, frameRate, bitrate, profile);
    }
  }

  /** A dimension of 2^32 - 1 is accepted as level 1. */
  lemma WrapExample()
    ensures FindMinimumLevel(0xFFFF_FFFF, 16, 30, 64000, Main) == Some(0)
    ensures SpecLevel(0xFFFF_FFFF, 16, 30, 64000, Main) == None
  {
    WrappedLevel(0xFFFF_FFFF, 16, 30, 64000, Main);
    assert MacroblocksWrapping(0xFFFF_FFFF) == 0 && MacroblocksWrapping(16) == 1;
    EmptyFrame(0, 1, 30);
    assert CodedDemand(0xFFFF_FFFF, 16, 30, 64000, Main) == Demand(0, 0, 1, 64);
    assert Meets(LEVEL_LIMITS[0], Demand(0, 0, 1, 64));
  }

  lemma DemandMonotone(w: nat, h: nat, f: nat, b: nat, w': nat, h': nat, f': nat, b': nat, profile: Profile)
    requires w <= w' && h <= h' && f <= f' && b <= b'
    ensures var d, d' := TrueDemand(w, h, f, b, profile), TrueDemand(w', h', f', b', profile);
      d.perSecond <= d'.perSecond && d.perFrame <= d'.perFrame && d.dimension <= d'.dimension && d.kbps <= d'.kbps
  {
    var x, y, x', y' := Macroblocks(w), Macroblocks(h), Macroblocks(w'), Macroblocks(h');
    MulMonotone(x, x', y);
    MulMonotone(y, y', x');
    MulMonotone(x * y, x' * y', f);
    MulMonotone(f, f', x' * y');
  }

  /** A larger, faster or richer stream never gets a lower level. */
  lemma LevelMonotone(w: nat, h: nat, f: nat, b: nat, w': nat, h': nat, f': nat, b': nat, profile: Profile)
    requires 0 < w <= w' && 0 < h <= h' && 0 < f <= f' && 0 < b <= b'
    ensures var level, level' := SpecLevel(w, h, f, b, profile), SpecLevel(w', h', f', b', profile);
      level'.Some? ==> level.Some? && level.value <= level'.value
  {
    var level' := SpecLevel(w', h', f', b', profile);
    if level'.Some? {
      DemandMonotone(w, h, f, b, w', h', f', b', profile);
      LeastLevel(w, h, f, b, profile, level'.value);
    }
  }

  /** The code's level never decreases either, as long as the larger frame does not wrap. */
  lemma MinimumLevelMonotone(w: uint32, h: uint32, f: uint32, b: uint32, w': uint32, h': uint32, f': uint32, b': uint32,
                             profile: Profile)
    requires 0 < w <= w' && 0 < h <= h' && 0 < f <= f' && 0 < b <= b' && NoWrap(w') && NoWrap(h')
    ensures var level, level' := FindMinimumLevel(w, h, f, b, profile), FindMinimumLevel(w', h', f', b', profile);
      level'.Some? ==> level.Some? && level.value <= level'.value
  {
    hide FindMinimumLevel, SpecLevel;
    Agrees(w, h, f, b, profile);
    Agrees(w', h', f', b', profile);
    LevelMonotone(w, h, f, b, w', h', f', b', profile);
  }

  /** Nothing smaller than this stream gets a higher level. */
  ghost predicate NeverHigher(w': uint32, h': uint32, f': uint32, b': uint32, profile: Profile) {
    forall w: uint32, h: uint32, f: uint32, b: uint32 :: 0 < w <= w' && 0 < h <= h' && 0 < f <= f' && 0 < b <= b' ==>
      var level, level' := FindMinimumLevel(w, h, f, b, profile), FindMinimumLevel(w', h', f', b', profile);
      level'.Some? ==> level.Some? && level.value <= level'.value
  }

  /** The largest dimension that does not wrap is beyond every level. */
  lemma LargestDimension(w: uint32, h: uint32, f: uint32, b: uint32, profile: Profile)
    requires w == 0xFFFF_FFF0 || h == 0xFFFF_FFF0
    ensures FindMinimumLevel(w, h, f, b, profile) == None
  {
    Rounding(w);
    Rounding(h);
    TooLarge(CodedDemand(w, h, f, b, profile));
  }

  /** A frame that wraps and is still given a level has smaller frames that get none, and only such
      a frame has. */
  lemma MonotoneExact(w': uint32, h': uint32, f': uint32, b': uint32, profile: Profile)
    requires 0 < w' && 0 < h' && 0 < f' && 0 < b'
    ensures NeverHigher(w', h', f', b', profile) <==>
      (NoWrap(w') && NoWrap(h')) || FindMinimumLevel(w', h', f', b', profile) == None
  {
    hide FindMinimumLevel;
    if NoWrap(w') && NoWrap(h') {
      forall w: uint32, h: uint32, f: uint32, b: uint32 | 0 < w <= w' && 0 < h <= h' && 0 < f <= f' && 0 < b <= b'
        ensures var level, level' := FindMinimumLevel(w, h, f, b, profile), FindMinimumLevel(w', h', f', b', profile);
          level'.Some? ==> level.Some? && level.value <= level'.value
      {
        MinimumLevelMonotone(w, h, f, b, w', h', f', b', profile);
      }
    } else if NoWrap(w') {
      LargestDimension(w', 0xFFFF_FFF0, f', b', profile);
    } else {
      LargestDimension(0xFFFF_FFF0, h', f', b', profile);
    }
  }

  /** The level chosen for a bitrate bound admits a bitrate exactly when no dimension wrapped and the
      level's own bitrate limit allows it; that limit allows everything up to the bound. */
  lemma ChosenLevelAdmits(w: uint32, h: uint32, f: uint32, bound: uint32, profile: Profile, b: nat)
    ensures var chosen := FindMinimumLevel(w, h, f, bound, profile);
      chosen.Some? ==>
        && chosen.value < |LEVEL_LIMITS|
        && (b <= bound ==> Kbps(b, profile) <= LEVEL_LIMITS[chosen.value].bitrateKbps)
        && (Admits(chosen.value, w, h, f, b, profile) <==>
              NoWrap(w) && NoWrap(h) && Kbps(b, profile) <= LEVEL_LIMITS[chosen.value].bitrateKbps)
  {
    var chosen := FindMinimumLevel(w, h, f, bound, profile);
    if chosen.Some? {
      var level := chosen.value;
      assert level < |LEVEL_LIMITS| && Meets(LEVEL_LIMITS[level], CodedDemand(w, h, f, bound, profile));
      if NoWrap(w) && NoWrap(h) {
        Agrees(w, h, f, bound, profile);
      } else {
        Rounding(w);
        Rounding(h);
        TopLevel(level);
      }
    }
  }

  /** A level chosen for a bitrate bound covers every bitrate up to that bound. */
  lemma LevelCovers(w: nat, h: nat, f: nat, bound: nat, profile: Profile, b: nat)
    requires SpecLevel(w, h, f, bound, profile).Some? && b <= bound
    ensures Admits(SpecLevel(w, h, f, bound, profile).value, w, h, f, b, profile)
  {
    DemandMonotone(w, h, f, b, w, h, f, bound, profile);
  }
}
