/** Simulcast layers: the bitrate table, its interpolation, the resolution ladder, the boost.
    Rates are exact reals in bits per second until the source rounds them to an int. */
module Simulcast {
  import opened Wrappers

  datatype SimulcastFormat = SimulcastFormat(
    width: int,
    height: int,
    maxLayers: nat,
    maxBitrate: real,
    targetBitrate: real,
    minBitrate: real)
  {
    function Pixels(): int { width * height }
  }

  datatype VideoStream = VideoStream(
    width: int,
    height: int,
    maxQp: int,
    numTemporalLayers: nat,
    minBitrateBps: int,
    targetBitrateBps: int,
    maxBitrateBps: int,
    maxFramerate: int,
    bitratePriority: Option<real>,
    active: bool)

  const EMPTY_STREAM := VideoStream(0, 0, -1, 0, -1, -1, -1, -1, None, true)

  const DEFAULT_MAX_ROUNDUP_RATE := 0.1

  /** From high resolution to low. */
  const SIMULCAST_FORMATS: seq<SimulcastFormat> := [
    SimulcastFormat(1920, 1080, 3, 5000_000.0, 4000_000.0, 800_000.0),
    SimulcastFormat(1280, 720, 3, 2500_000.0, 2500_000.0, 600_000.0),
    SimulcastFormat(960, 540, 3, 1200_000.0, 1200_000.0, 350_000.0),
    SimulcastFormat(640, 360, 2, 700_000.0, 500_000.0, 150_000.0),
    SimulcastFormat(480, 270, 2, 450_000.0, 350_000.0, 150_000.0),
    SimulcastFormat(320, 180, 1, 200_000.0, 150_000.0, 30_000.0),
    SimulcastFormat(0, 0, 1, 0.0, 0.0, 30_000.0)]

  /** The highest rate in the table, in bits per second. */
  const TOP_RATE := 5000_000

  /** Without low-resolution interpolation the last row repeats the rates of the row above it. */
  function GetSimulcastFormats(lowres: bool): (formats: seq<SimulcastFormat>)
    ensures TableIsSorted(formats)
  {
    var n, prev := |SIMULCAST_FORMATS|, SIMULCAST_FORMATS[|SIMULCAST_FORMATS| - 2];
    var last := SIMULCAST_FORMATS[n - 1].(
      maxBitrate := prev.maxBitrate, targetBitrate := prev.targetBitrate, minBitrate := prev.minBitrate);
    TablePixels();
    if lowres then SIMULCAST_FORMATS else SIMULCAST_FORMATS[n - 1 := last]
  }

  lemma TablePixels()
    ensures |SIMULCAST_FORMATS| == 7
    ensures forall i :: 0 <= i < 7 ==>
              SIMULCAST_FORMATS[i].Pixels() == [2073600, 921600, 518400, 230400, 129600, 57600, 0][i]
  {
    assert 1920 * 1080 == 2073600 && 1280 * 720 == 921600 && 960 * 540 == 518400;
    assert 640 * 360 == 230400 && 480 * 270 == 129600 && 320 * 180 == 57600;
  }

  /** Pixels fall strictly down the table to 0, the rates fall with them, and target <= max in every row. */
  ghost predicate TableIsSorted(formats: seq<SimulcastFormat>) {
    && |formats| > 1 && formats[|formats| - 1].Pixels() == 0
    && (forall i :: 0 <= i < |formats| ==> 0.0 <= formats[i].targetBitrate <= formats[i].maxBitrate)
    && (forall i :: 0 < i < |formats| ==> RowBelow(formats[i - 1], formats[i]))
  }

  ghost predicate RowBelow(up: SimulcastFormat, down: SimulcastFormat) {
    && down.Pixels() < up.Pixels()
    && down.maxBitrate <= up.maxBitrate
    && down.targetBitrate <= up.targetBitrate
    && down.minBitrate <= up.minBitrate
  }

  /** The first row that is no larger than `pixels`. */
  ghost function FormatIndex(formats: seq<SimulcastFormat>, pixels: int): (i: nat)
    requires TableIsSorted(formats) && pixels >= 0
    ensures i < |formats| && formats[i].Pixels() <= pixels
    ensures forall k :: 0 <= k < i ==> formats[k].Pixels() > pixels
  {
    FormatIndexFrom(formats, pixels, 0)
  }

  ghost function FormatIndexFrom(formats: seq<SimulcastFormat>, pixels: int, from: nat): (i: nat)
    requires TableIsSorted(formats) && pixels >= 0 && from < |formats|
    requires forall k :: 0 <= k < from ==> formats[k].Pixels() > pixels
    ensures i < |formats| && formats[i].Pixels() <= pixels
    ensures forall k :: 0 <= k < i ==> formats[k].Pixels() > pixels
    decreases |formats| - from
  {
    if formats[from].Pixels() <= pixels then from else FormatIndexFrom(formats, pixels, from + 1)
  }

  method FindSimulcastFormatIndex(width: int, height: int, lowres: bool) returns (index: nat)
    requires width >= 0 && height >= 0
    ensures width * height >= 0
    ensures index == FormatIndex(GetSimulcastFormats(lowres), width * height)
  {
    var formats := GetSimulcastFormats(lowres);
    index := 0;
    while !(width * height >= formats[index].width * formats[index].height)
      invariant index < |formats|
      invariant forall k :: 0 <= k < index ==> formats[k].Pixels() > width * height
      decreases |formats| - index
    {
      index := index + 1;
    }
  }

  function Interpolate(a: real, b: real, rate: real): real {
    a * (1.0 - rate) + b * rate
  }

  /** Interpolation at `rate` lies between its ends and falls as the rate grows. */
  lemma InterpolateIsMonotone(a: real, b: real, rate1: real, rate2: real)
    requires b <= a && 0.0 <= rate1 <= rate2 <= 1.0
    ensures b <= Interpolate(a, b, rate2) <= Interpolate(a, b, rate1) <= a
  {
    var d := a - b;
    assert Interpolate(a, b, rate1) == a - d * rate1;
    assert Interpolate(a, b, rate2) == a - d * rate2;
    assert d * rate1 <= d * rate2;
    assert d * rate2 <= d * 1.0;
    assert 0.0 <= d * rate1;
  }

  lemma InterpolateKeepsOrder(a: real, b: real, a': real, b': real, rate: real)
    requires a <= a' && b <= b' && 0.0 <= rate <= 1.0
    ensures Interpolate(a, b, rate) <= Interpolate(a', b', rate)
  {
    assert a * (1.0 - rate) <= a' * (1.0 - rate);
    assert b * rate <= b' * rate;
  }

  /** How far `pixels` lies below the row above it, as a share of the gap to the row below. */
  ghost function RateAt(formats: seq<SimulcastFormat>, index: nat, pixels: int): (rate: real)
    requires TableIsSorted(formats) && 0 < index < |formats|
    requires formats[index].Pixels() <= pixels < formats[index - 1].Pixels()
    ensures 0.0 <= rate <= 1.0
  {
    var up, down := formats[index - 1].Pixels(), formats[index].Pixels();
    RatioIsAShare(up - pixels, up - down);
    (up - pixels) as real / (up - down) as real
  }

  lemma RatioIsAShare(part: int, whole: int)
    requires 0 <= part <= whole && 0 < whole
    ensures 0.0 <= part as real / whole as real <= 1.0
  {
    var w := whole as real;
    assert part as real <= 1.0 * w;
  }

  /** The row a table gives for a picture of this size. */
  ghost function InterpolatedIn(formats: seq<SimulcastFormat>, width: int, height: int, maxRoundupRate: Option<real>)
    : SimulcastFormat
    requires TableIsSorted(formats) && width * height >= 0
  {
    var index := FormatIndex(formats, width * height);
    if index == 0 then formats[0] else
      var up, down := formats[index - 1], formats[index];
      var rate := RateAt(formats, index, width * height);
      SimulcastFormat(width, height,
        if rate < maxRoundupRate.GetOr(DEFAULT_MAX_ROUNDUP_RATE) then up.maxLayers else down.maxLayers,
        Interpolate(up.maxBitrate, down.maxBitrate, rate),
        Interpolate(up.targetBitrate, down.targetBitrate, rate),
        Interpolate(up.minBitrate, down.minBitrate, rate))
  }

  ghost function Interpolated(width: int, height: int, maxRoundupRate: Option<real>, lowres: bool): SimulcastFormat
    requires width >= 0 && height >= 0 && width * height >= 0
  {
    InterpolatedIn(GetSimulcastFormats(lowres), width, height, maxRoundupRate)
  }

  method InterpolateSimulcastFormat(width: int, height: int, maxRoundupRate: Option<real>, lowres: bool)
    returns (format: SimulcastFormat)
    requires width >= 0 && height >= 0
    ensures width * height >= 0
    ensures format == Interpolated(width, height, maxRoundupRate, lowres)
  {
    var formats := GetSimulcastFormats(lowres);
    var index := FindSimulcastFormatIndex(width, height, lowres);
    format := InterpolateRows(formats, index, width, height, maxRoundupRate);
  }

  /** The same, once the index is known. */
  method InterpolateRows(formats: seq<SimulcastFormat>, index: nat, width: int, height: int,
                         maxRoundupRate: Option<real>)
    returns (format: SimulcastFormat)
    requires TableIsSorted(formats) && width * height >= 0 && index == FormatIndex(formats, width * height)
    ensures format == InterpolatedIn(formats, width, height, maxRoundupRate)
  {
    if index == 0 {
      return formats[index];
    }
    var up, down := formats[index - 1], formats[index];
    var rate := RateBetween(up, down, width, height);
    var maxLayers := if rate < maxRoundupRate.GetOr(DEFAULT_MAX_ROUNDUP_RATE) then up.maxLayers else down.maxLayers;
    return SimulcastFormat(width, height, maxLayers,
      Interpolate(up.maxBitrate, down.maxBitrate, rate),
      Interpolate(up.targetBitrate, down.targetBitrate, rate),
      Interpolate(up.minBitrate, down.minBitrate, rate));
  }

  /** (pixels_up - pixels) / (pixels_up - pixels_down). */
  function RateBetween(up: SimulcastFormat, down: SimulcastFormat, width: int, height: int): (rate: real)
    requires down.Pixels() <= width * height < up.Pixels()
    ensures 0.0 <= rate <= 1.0
  {
    var totalPixelsUp, totalPixelsDown, totalPixels := up.width * up.height, down.width * down.height, width * height;
    RatioIsAShare(totalPixelsUp - totalPixels, totalPixelsUp - totalPixelsDown);
    (totalPixelsUp - totalPixels) as real / (totalPixelsUp - totalPixelsDown) as real
  }

  /* ---- the interpolated rates grow with the picture ---- */

  lemma {:induction false} RowsFallDown(formats: seq<SimulcastFormat>, i: nat, j: nat)
    requires TableIsSorted(formats) && i <= j < |formats|
    ensures formats[j].maxBitrate <= formats[i].maxBitrate
    ensures formats[j].targetBitrate <= formats[i].targetBitrate
    ensures formats[j].minBitrate <= formats[i].minBitrate
    ensures i < j ==> formats[j].Pixels() < formats[i].Pixels()
    decreases j - i
  {
    if i < j {
      RowsFallDown(formats, i, j - 1);
    }
  }

  /** The rate a column gives, as a function of the pixel count alone. */
  ghost function ColumnAt(formats: seq<SimulcastFormat>, column: SimulcastFormat -> real, pixels: int): real
    requires TableIsSorted(formats) && pixels >= 0
  {
    var index := FormatIndex(formats, pixels);
    if index == 0 then column(formats[0])
    else Interpolate(column(formats[index - 1]), column(formats[index]), RateAt(formats, index, pixels))
  }

  ghost predicate Falls(formats: seq<SimulcastFormat>, column: SimulcastFormat -> real) {
    forall i, j :: 0 <= i <= j < |formats| ==> column(formats[j]) <= column(formats[i])
  }

  lemma ColumnLiesBetweenRows(formats: seq<SimulcastFormat>, column: SimulcastFormat -> real, pixels: int)
    requires TableIsSorted(formats) && pixels >= 0 && Falls(formats, column)
    ensures var i := FormatIndex(formats, pixels);
      column(formats[i]) <= ColumnAt(formats, column, pixels) <= column(formats[if i == 0 then 0 else i - 1])
  {
    var i := FormatIndex(formats, pixels);
    if i > 0 {
      var rate := RateAt(formats, i, pixels);
      InterpolateIsMonotone(column(formats[i - 1]), column(formats[i]), rate, rate);
    }
  }

  /** Across all table segments: more pixels never get a lower rate. */
  lemma ColumnIsMonotone(formats: seq<SimulcastFormat>, column: SimulcastFormat -> real, p: int, q: int)
    requires TableIsSorted(formats) && 0 <= p <= q && Falls(formats, column)
    ensures ColumnAt(formats, column, p) <= ColumnAt(formats, column, q)
  {
    var i, j := FormatIndex(formats, p), FormatIndex(formats, q);
    assert j <= i;
    if i == j {
      if i > 0 {
        var up, down := formats[i - 1].Pixels(), formats[i].Pixels();
        RatioGrows(up - q, up - p, up - down);
        InterpolateIsMonotone(column(formats[i - 1]), column(formats[i]), RateAt(formats, i, q), RateAt(formats, i, p));
      }
    } else {
      ColumnLiesBetweenRows(formats, column, p);
      ColumnLiesBetweenRows(formats, column, q);
      assert column(formats[i - 1]) <= column(formats[j]);
    }
  }

  lemma RatioGrows(part1: int, part2: int, whole: int)
    requires 0 <= part1 <= part2 && 0 < whole
    ensures part1 as real / whole as real <= part2 as real / whole as real
  {
  }

  /** A larger picture never gets a lower max, target or min bitrate, in either interpolation mode. */
  lemma InterpolatedIsMonotone(w1: int, h1: int, w2: int, h2: int, lowres: bool)
    requires 0 <= w1 && 0 <= h1 && 0 <= w2 && 0 <= h2 && 0 <= w1 * h1 <= w2 * h2
    ensures var small, large := Interpolated(w1, h1, None, lowres), Interpolated(w2, h2, None, lowres);
      && small.maxBitrate <= large.maxBitrate
      && small.targetBitrate <= large.targetBitrate
      && small.minBitrate <= large.minBitrate
  {
    var formats := GetSimulcastFormats(lowres);
    ColumnsFall(formats);
    ColumnIsMonotone(formats, MaxColumn(), w1 * h1, w2 * h2);
    ColumnIsMonotone(formats, TargetColumn(), w1 * h1, w2 * h2);
    ColumnIsMonotone(formats, MinColumn(), w1 * h1, w2 * h2);
    InterpolatedColumns(w1, h1, lowres);
    InterpolatedColumns(w2, h2, lowres);
  }

  ghost function MaxColumn(): SimulcastFormat -> real { (f: SimulcastFormat) => f.maxBitrate }
  ghost function TargetColumn(): SimulcastFormat -> real { (f: SimulcastFormat) => f.targetBitrate }
  ghost function MinColumn(): SimulcastFormat -> real { (f: SimulcastFormat) => f.minBitrate }

  lemma ColumnsFall(formats: seq<SimulcastFormat>)
    requires TableIsSorted(formats)
    ensures Falls(formats, MaxColumn()) && Falls(formats, TargetColumn()) && Falls(formats, MinColumn())
  {
    forall i: nat, j: nat | i <= j < |formats|
      ensures MaxColumn()(formats[j]) <= MaxColumn()(formats[i])
      ensures TargetColumn()(formats[j]) <= TargetColumn()(formats[i])
      ensures MinColumn()(formats[j]) <= MinColumn()(formats[i])
    {
      RowsFallDown(formats, i, j);
    }
  }

  lemma InterpolatedColumns(width: int, height: int, lowres: bool)
    requires width >= 0 && height >= 0 && width * height >= 0
    ensures var formats, f := GetSimulcastFormats(lowres), Interpolated(width, height, None, lowres);
      && f.maxBitrate == ColumnAt(formats, MaxColumn(), width * height)
      && f.targetBitrate == ColumnAt(formats, TargetColumn(), width * height)
      && f.minBitrate == ColumnAt(formats, MinColumn(), width * height)
  {
  }

  lemma InterpolatedTargetIsBelowMax(width: int, height: int, maxRoundupRate: Option<real>, lowres: bool)
    requires width >= 0 && height >= 0 && width * height >= 0
    ensures var f := Interpolated(width, height, maxRoundupRate, lowres);
      0.0 <= f.targetBitrate <= f.maxBitrate
  {
    var formats := GetSimulcastFormats(lowres);
    var index := FormatIndex(formats, width * height);
    if index > 0 {
      var up, down := formats[index - 1], formats[index];
      var rate := RateAt(formats, index, width * height);
      InterpolateKeepsOrder(up.targetBitrate, down.targetBitrate, up.maxBitrate, down.maxBitrate, rate);
      InterpolateKeepsOrder(0.0, 0.0, up.targetBitrate, down.targetBitrate, rate);
    }
  }

  lemma InterpolatedIsBelowTop(width: int, height: int, lowres: bool)
    requires width >= 0 && height >= 0 && width * height >= 0
    ensures Interpolated(width, height, None, lowres).maxBitrate <= TOP_RATE as real
  {
    var formats := GetSimulcastFormats(lowres);
    ColumnsFall(formats);
    ColumnLiesBetweenRows(formats, MaxColumn(), width * height);
    InterpolatedColumns(width, height, lowres);
    assert MaxColumn()(formats[0]) == TOP_RATE as real;
  }

  /* ---- where the interpolated rates lie ---- */

  /** A picture of `pixels` lies between row `i` and the row above it. */
  ghost predicate LiesBetween(formats: seq<SimulcastFormat>, i: nat, pixels: int) {
    0 < i < |formats| && formats[i].Pixels() <= pixels < formats[i - 1].Pixels()
  }

  /** `rate` is where the line from `low`, at `down` pixels, to `high`, at `up` pixels, passes `pixels`. */
  ghost predicate OnTheLine(up: int, down: int, high: real, low: real, pixels: int, rate: real) {
    (rate - low) * (up - down) as real == (high - low) * (pixels - down) as real
  }

  /** The rates of `f` are on the lines between the two rows, and the layers are those of the upper row if the
      picture lies less than `share` of the gap below it. */
  ghost predicate OnTheLines(up: SimulcastFormat, down: SimulcastFormat, pixels: int, share: real, f: SimulcastFormat) {
    && OnTheLine(up.Pixels(), down.Pixels(), up.maxBitrate, down.maxBitrate, pixels, f.maxBitrate)
    && OnTheLine(up.Pixels(), down.Pixels(), up.targetBitrate, down.targetBitrate, pixels, f.targetBitrate)
    && OnTheLine(up.Pixels(), down.Pixels(), up.minBitrate, down.minBitrate, pixels, f.minBitrate)
    && f.maxLayers == if (up.Pixels() - pixels) as real < share * (up.Pixels() - down.Pixels()) as real
                      then up.maxLayers else down.maxLayers
  }

  lemma LiesBetweenIsIndex(formats: seq<SimulcastFormat>, i: nat, pixels: int)
    requires TableIsSorted(formats) && pixels >= 0 && LiesBetween(formats, i, pixels)
    ensures FormatIndex(formats, pixels) == i
  {
    var index := FormatIndex(formats, pixels);
    if index < i {
      RowsFallDown(formats, index, i - 1);
    }
  }

  lemma ShareOfGap(high: real, low: real, rate: real, part: real, gap: real)
    requires rate * gap == part
    ensures (Interpolate(high, low, rate) - low) * gap == (high - low) * (gap - part)
  {
    var d := high - low;
    assert Interpolate(high, low, rate) - low == d - d * rate;
    assert (d * rate) * gap == d * part;
    assert (d - d * rate) * gap == d * gap - d * part;
  }

  lemma QuotientTimes(part: real, gap: real)
    requires gap > 0.0
    ensures part / gap * gap == part
  {
  }

  lemma InterpolateIsOnTheLine(up: int, down: int, high: real, low: real, pixels: int, rate: real)
    requires down < up && rate == (up - pixels) as real / (up - down) as real
    ensures OnTheLine(up, down, high, low, pixels, Interpolate(high, low, rate))
  {
    QuotientTimes((up - pixels) as real, (up - down) as real);
    ShareOfGap(high, low, rate, (up - pixels) as real, (up - down) as real);
  }

  lemma ShareDecides(up: int, down: int, pixels: int, share: real)
    requires down < up
    ensures (up - pixels) as real / (up - down) as real < share <==> (up - pixels) as real < share * (up - down) as real
  {
    QuotientTimes((up - pixels) as real, (up - down) as real);
    SmallerShare((up - pixels) as real / (up - down) as real, share, (up - down) as real);
  }

  lemma InterpolatedRowIsOnTheLines(up: SimulcastFormat, down: SimulcastFormat, pixels: int, share: real, rate: real,
                                    f: SimulcastFormat)
    requires down.Pixels() < up.Pixels()
    requires rate == (up.Pixels() - pixels) as real / (up.Pixels() - down.Pixels()) as real
    requires f.maxBitrate == Interpolate(up.maxBitrate, down.maxBitrate, rate)
    requires f.targetBitrate == Interpolate(up.targetBitrate, down.targetBitrate, rate)
    requires f.minBitrate == Interpolate(up.minBitrate, down.minBitrate, rate)
    requires f.maxLayers == if rate < share then up.maxLayers else down.maxLayers
    ensures OnTheLines(up, down, pixels, share, f)
  {
    var u, d := up.Pixels(), down.Pixels();
    InterpolateIsOnTheLine(u, d, up.maxBitrate, down.maxBitrate, pixels, rate);
    InterpolateIsOnTheLine(u, d, up.targetBitrate, down.targetBitrate, pixels, rate);
    InterpolateIsOnTheLine(u, d, up.minBitrate, down.minBitrate, pixels, rate);
    ShareDecides(u, d, pixels, share);
  }

  lemma SmallerShare(a: real, b: real, gap: real)
    requires gap > 0.0
    ensures a < b <==> a * gap < b * gap
  {
    var d := b - a;
    assert b * gap - a * gap == d * gap;
    if d > 0.0 {
      assert d * gap > 0.0;
    } else {
      assert d * gap <= 0.0;
    }
  }

  /** A picture between two rows of the table has the rates of the straight lines between them, and the number of
      layers of the upper row if it lies less than the allowed share of the gap below it, a tenth by default. */
  lemma InterpolationIsLinear(width: int, height: int, maxRoundupRate: Option<real>, lowres: bool, i: nat)
    requires width >= 0 && height >= 0 && width * height >= 0
    requires LiesBetween(GetSimulcastFormats(lowres), i, width * height)
    ensures var formats, f := GetSimulcastFormats(lowres), Interpolated(width, height, maxRoundupRate, lowres);
      && f.width == width && f.height == height
      && OnTheLines(formats[i - 1], formats[i], width * height, maxRoundupRate.GetOr(0.1), f)
  {
    TableRowsAreLinear(GetSimulcastFormats(lowres), width, height, maxRoundupRate, i);
  }

  lemma TableRowsAreLinear(formats: seq<SimulcastFormat>, width: int, height: int, maxRoundupRate: Option<real>, i: nat)
    requires TableIsSorted(formats) && width * height >= 0 && LiesBetween(formats, i, width * height)
    ensures var f := InterpolatedIn(formats, width, height, maxRoundupRate);
      && f.width == width && f.height == height
      && OnTheLines(formats[i - 1], formats[i], width * height, maxRoundupRate.GetOr(0.1), f)
  {
    LiesBetweenIsIndex(formats, i, width * height);
    InterpolatedRowIsOnTheLines(formats[i - 1], formats[i], width * height, maxRoundupRate.GetOr(0.1),
      RateAt(formats, i, width * height), InterpolatedIn(formats, width, height, maxRoundupRate));
  }

  /** A picture of at least the top row gets that row as it is. */
  lemma LargePicturesGetTheTopRow(width: int, height: int, maxRoundupRate: Option<real>, lowres: bool)
    requires width >= 0 && height >= 0 && width * height >= 1920 * 1080
    ensures Interpolated(width, height, maxRoundupRate, lowres) ==
              SimulcastFormat(1920, 1080, 3, 5000_000.0, 4000_000.0, 800_000.0)
  {
  }

  /** Without low-resolution interpolation every picture below 320x180 has the rates of that row. */
  lemma SmallPicturesKeepTheirRates(width: int, height: int, maxRoundupRate: Option<real>)
    requires width >= 0 && height >= 0 && 0 <= width * height < 320 * 180
    ensures var f := Interpolated(width, height, maxRoundupRate, false);
      f.maxBitrate == 200_000.0 && f.targetBitrate == 150_000.0 && f.minBitrate == 30_000.0
  {
    var formats := GetSimulcastFormats(false);
    TablePixels();
    assert LiesBetween(formats, 6, width * height);
    LiesBetweenIsIndex(formats, 6, width * height);
  }

  /** There is one rate on a line. */
  lemma OneRateOnTheLine(up: int, down: int, high: real, low: real, pixels: int, a: real, b: real)
    requires down < up && OnTheLine(up, down, high, low, pixels, a) && OnTheLine(up, down, high, low, pixels, b)
    ensures a == b
  {
    SameShare(a - low, b - low, (up - down) as real);
  }

  lemma SameShare(a: real, b: real, gap: real)
    requires gap > 0.0 && a * gap == b * gap
    ensures a == b
  {
    SmallerShare(a, b, gap);
    SmallerShare(b, a, gap);
  }

  /* ---- the resolution ladder ---- */

  function Pow2(n: nat): (r: nat)
    ensures r > 0
  {
    if n == 0 then 1 else 2 * Pow2(n - 1)
  }

  /** The exponent of the NormalizeSimulcastSize experiment counts for pictures larger than its power. */
  function Base2Exponent(size: int, layers: nat, experiment: Option<nat>): nat
    requires layers >= 1
  {
    if experiment.Some? && size > Pow2(experiment.value) then experiment.value else layers - 1
  }

  /** Largest multiple of the power that is not above `size`: shift right, then left. */
  function NormalizeSimulcastSize(size: int, layers: nat, experiment: Option<nat>): (r: int)
    requires size >= 0 && layers >= 1
    ensures r >= 0
  {
    var unit := Pow2(Base2Exponent(size, layers, experiment));
    QuotientBounds(size, unit);
    size / unit * unit
  }

  lemma NormalizedSizeIsDivisible(size: int, layers: nat, experiment: Option<nat>)
    requires size >= 0 && layers >= 1
    ensures var r, unit := NormalizeSimulcastSize(size, layers, experiment), Pow2(Base2Exponent(size, layers, experiment));
      r % unit == 0 && 0 <= r <= size < r + unit
  {
    var unit := Pow2(Base2Exponent(size, layers, experiment));
    QuotientBounds(size, unit);
    QuotientIs(size / unit * unit, unit, size / unit, 0);
  }

  lemma QuotientBounds(size: int, unit: nat)
    requires unit > 0 && size >= 0
    ensures 0 <= size / unit * unit <= size < size / unit * unit + unit
  {
  }

  /** Division with remainder has one outcome. */
  lemma QuotientIs(x: int, unit: nat, q: int, rest: int)
    requires unit > 0 && x == q * unit + rest && 0 <= rest < unit
    ensures x / unit == q && x % unit == rest
  {
    var d := q - x / unit;
    assert d * unit == x % unit - rest by {
      assert x == (x / unit) * unit + x % unit;
    }
    NoMultipleIsThatSmall(d, unit, x % unit - rest);
  }

  lemma NoMultipleIsThatSmall(d: int, unit: nat, m: int)
    requires unit > 0 && d * unit == m && 0 < m + unit && m < unit
    ensures d == 0
  {
    if d >= 1 {
      ProductIsAtLeast(d, unit);
    } else if d <= -1 {
      ProductIsAtLeast(-d, unit);
    }
  }

  lemma HalfOfQuotient(x: int, unit: nat)
    requires unit > 0
    ensures x / (2 * unit) == x / unit / 2
  {
    var q := x / unit;
    var p, b := q / 2, q % 2;
    assert x == q * unit + x % unit;
    assert q * unit == p * (2 * unit) + b * unit;
    QuotientIs(x, 2 * unit, p, b * unit + x % unit);
  }

  lemma ProductIsAtLeast(d: int, unit: nat)
    requires d >= 1
    ensures d * unit >= unit && -d * unit == -(d * unit)
  {
  }

  /** What decides the layers beside the picture: the trials, and the TL0 share of layer 0. */
  datatype LayerParams = LayerParams(
    bitratePriority: real,
    maxQp: int,
    temporalLayersSupported: bool,
    temporalLayers: nat -> nat,
    rateFactor: real,
    lowres: bool,
    maxFramerate: int,
    sizeExperiment: Option<nat>)

  /** rate_factor of layer 0; `tl0Share(n)` is the share of the base of n temporal layers. */
  function BaseLayerRateFactor(numTemporalLayers: nat, baseHeavy: bool, tl0Share: nat -> real): real
    requires tl0Share(numTemporalLayers) != 0.0
  {
    if numTemporalLayers == 3 then (if baseHeavy then 0.4 / 0.6 else 1.0)
    else tl0Share(3) / tl0Share(numTemporalLayers)
  }

  ghost function Halved(x: int, k: nat): (r: int)
    requires x >= 0
    ensures 0 <= r
  {
    if k == 0 then x else Halved(x, k - 1) / 2
  }

  lemma {:induction false} HalvedIsQuotient(x: int, k: nat)
    requires x >= 0
    ensures Halved(x, k) == x / Pow2(k)
  {
    if k > 0 {
      HalvedIsQuotient(x, k - 1);
      HalfOfQuotient(x, Pow2(k - 1));
    }
  }

  /** Layer `s` of a ladder of `count`: the normalized size, halved on the way down. */
  ghost function LayerSize(size: int, count: nat, s: nat, experiment: Option<nat>): (r: int)
    requires size >= 0 && s < count
    ensures r >= 0
  {
    Halved(NormalizeSimulcastSize(size, count, experiment), count - 1 - s)
  }

  lemma {:induction false} MultipleHalved(q: int, n: nat, k: nat)
    requires q >= 0 && k <= n && q * Pow2(n) >= 0
    ensures Halved(q * Pow2(n), k) == q * Pow2(n - k)
  {
    if k > 0 {
      MultipleHalved(q, n, k - 1);
      assert Pow2(n - k + 1) == 2 * Pow2(n - k);
      assert q * Pow2(n - k + 1) == 2 * (q * Pow2(n - k));
    }
  }

  /** The size experiment is off, or clears at least as many bits as a ladder of `count` needs. */
  ghost predicate ExperimentFits(experiment: Option<nat>, count: nat)
    requires count >= 1
  {
    experiment.None? || experiment.value >= count - 1
  }

  /** Then every layer is exactly double the one below. */
  lemma LayerSizesDouble(size: int, count: nat, s: nat, experiment: Option<nat>)
    requires size >= 0 && 0 < s < count && ExperimentFits(experiment, count)
    ensures LayerSize(size, count, s, experiment) == 2 * LayerSize(size, count, s - 1, experiment)
  {
    var n := Base2Exponent(size, count, experiment);
    var q, k := size / Pow2(n), count - 1 - s;
    QuotientBounds(size, Pow2(n));
    MultipleHalved(q, n, k);
    MultipleHalved(q, n, k + 1);
    DoubledProduct(q, Pow2(n - k), Pow2(n - k - 1));
  }

  lemma DoubledProduct(q: int, a: int, b: int)
    requires a == 2 * b
    ensures q * a == 2 * (q * b)
  {
  }

  lemma {:induction false} Pow2Climbs(a: nat, b: nat)
    requires a <= b
    ensures Pow2(a) <= Pow2(b)
    decreases b - a
  {
    if a < b {
      Pow2Climbs(a, b - 1);
    }
  }

  lemma {:induction false} Pow2Splits(a: nat, b: nat)
    requires a <= b
    ensures Pow2(b) == Pow2(b - a) * Pow2(a)
  {
    if a > 0 {
      Pow2Splits(a - 1, b);
      assert Pow2(b - a + 1) == 2 * Pow2(b - a);
      assert Pow2(b - a + 1) * Pow2(a - 1) == Pow2(b - a) * (2 * Pow2(a - 1));
    }
  }

  /** A picture of a power of two with room for the ladder has powers of two as layers, experiment or not. */
  lemma PowerLayers(m: nat, count: nat, s: nat, experiment: Option<nat>)
    requires s < count <= m + 1
    ensures LayerSize(Pow2(m), count, s, experiment) == Pow2(m - (count - 1 - s))
  {
    var n := Base2Exponent(Pow2(m), count, experiment);
    if n > m {
      Pow2Climbs(m, n);
    }
    Pow2Splits(n, m);
    QuotientIs(Pow2(m), Pow2(n), Pow2(m - n), 0);
    assert NormalizeSimulcastSize(Pow2(m), count, experiment) == Pow2(m);
    assert 1 * Pow2(m) == Pow2(m);
    MultipleHalved(1, m, count - 1 - s);
  }

  function Max(a: int, b: int): int { if a >= b then a else b }
  function Min(a: int, b: int): int { if a <= b then a else b }

  /** A rate scaled by the share of its layer, rounded down, and raised to the minimum. */
  ghost function ScaledRate(min: int, rate: int, factor: real): int {
    Max(min, (rate as real * factor).Floor)
  }

  ghost function FactorOf(s: nat, p: LayerParams): real {
    if s == 0 then p.rateFactor else 1.0
  }

  /** A layer of this size whose interpolated table row is `f`. */
  ghost function LayerFrom(w: int, h: int, f: SimulcastFormat, s: nat, p: LayerParams): VideoStream {
    var min := f.minBitrate.Floor;
    VideoStream(w, h, p.maxQp,
      if p.temporalLayersSupported then p.temporalLayers(s) else 1,
      min,
      ScaledRate(min, f.targetBitrate.Floor, FactorOf(s, p)),
      ScaledRate(min, f.maxBitrate.Floor, FactorOf(s, p)),
      p.maxFramerate,
      if s == 0 then Some(p.bitratePriority) else None,
      true)
  }

  ghost function NormalLayer(width: int, height: int, count: nat, s: nat, p: LayerParams): VideoStream
    requires width >= 0 && height >= 0 && s < count
  {
    var w, h := LayerSize(width, count, s, p.sizeExperiment), LayerSize(height, count, s, p.sizeExperiment);
    LayerFrom(w, h, Interpolated(w, h, None, p.lowres), s, p)
  }

  /** The body of the layer loop, once the table row is known; the priority of layer 0 comes last. */
  method FillLayer(layers: array<VideoStream>, s: nat, w: int, h: int, format: SimulcastFormat, p: LayerParams)
    requires s < layers.Length && layers[s] == EMPTY_STREAM
    modifies layers
    ensures layers[s] == LayerFrom(w, h, format, s, p).(bitratePriority := None)
    ensures forall k :: 0 <= k < layers.Length && k != s ==> layers[k] == old(layers[k])
  {
    layers[s] := layers[s].(width := w, height := h, maxQp := p.maxQp,
      numTemporalLayers := if p.temporalLayersSupported then p.temporalLayers(s) else 1,
      maxBitrateBps := format.maxBitrate.Floor,
      targetBitrateBps := format.targetBitrate.Floor);
    if s == 0 {
      layers[s] := layers[s].(
        maxBitrateBps := (layers[s].maxBitrateBps as real * p.rateFactor).Floor,
        targetBitrateBps := (layers[s].targetBitrateBps as real * p.rateFactor).Floor);
    }
    layers[s] := layers[s].(minBitrateBps := format.minBitrate.Floor);
    layers[s] := layers[s].(maxBitrateBps := Max(layers[s].minBitrateBps, layers[s].maxBitrateBps));
    layers[s] := layers[s].(targetBitrateBps := Max(layers[s].minBitrateBps, layers[s].targetBitrateBps));
    layers[s] := layers[s].(maxFramerate := p.maxFramerate);
  }

  method GetNormalSimulcastLayers(count: nat, width: int, height: int, p: LayerParams)
    returns (layers: array<VideoStream>)
    requires count >= 1 && width >= 0 && height >= 0
    ensures fresh(layers) && layers.Length == count
    ensures forall s :: 0 <= s < count ==> layers[s] == NormalLayer(width, height, count, s, p)
  {
    layers := new VideoStream[count](_ => EMPTY_STREAM);
    var w := NormalizeSimulcastSize(width, count, p.sizeExperiment);
    var h := NormalizeSimulcastSize(height, count, p.sizeExperiment);
    var s := count - 1;
    while true
      invariant 0 <= s < count && layers.Length == count
      invariant w == LayerSize(width, count, s, p.sizeExperiment)
      invariant h == LayerSize(height, count, s, p.sizeExperiment)
      invariant forall k :: s < k < count ==> layers[k] == NormalLayer(width, height, count, k, p)
      invariant forall k :: 0 <= k <= s ==> layers[k] == EMPTY_STREAM
      invariant fresh(layers)
      decreases s
    {
      var format := InterpolateSimulcastFormat(w, h, None, p.lowres);
      FillLayer(layers, s, w, h, format, p);
      w := w / 2;
      h := h / 2;
      if s == 0 {
        break;
      }
      s := s - 1;
    }
    layers[0] := layers[0].(bitratePriority := Some(p.bitratePriority));
  }

  /** One side of layer `s` by division: the multiple of a power of two, divided once for every layer above. The power
      is that of the ladder, or that of the experiment for a side above it. */
  ghost function SideByDivision(size: int, count: nat, s: nat, experiment: Option<nat>): int
    requires s < count
  {
    var unit := Pow2(if experiment.Some? && size > Pow2(experiment.value) then experiment.value else count - 1);
    size / unit * unit / Pow2(count - 1 - s)
  }

  lemma LayerSizeIsQuotient(size: int, count: nat, s: nat, experiment: Option<nat>)
    requires size >= 0 && s < count
    ensures LayerSize(size, count, s, experiment) == SideByDivision(size, count, s, experiment)
    ensures experiment.None? ==> LayerSize(size, count, s, experiment) == size / Pow2(count - 1) * Pow2(s)
  {
    HalvedIsQuotient(NormalizeSimulcastSize(size, count, experiment), count - 1 - s);
    if experiment.None? {
      QuotientBounds(size, Pow2(count - 1));
      MultipleHalved(size / Pow2(count - 1), count - 1, count - 1 - s);
    }
  }

  /** The fields of layer `s` that do not come from the table. */
  lemma NormalLayerShape(width: int, height: int, count: nat, s: nat, p: LayerParams)
    requires width >= 0 && height >= 0 && s < count
    ensures var layer := NormalLayer(width, height, count, s, p);
      && layer.width == SideByDivision(width, count, s, p.sizeExperiment)
      && layer.height == SideByDivision(height, count, s, p.sizeExperiment)
      && (p.sizeExperiment.None? ==>
           layer.width == width / Pow2(count - 1) * Pow2(s) && layer.height == height / Pow2(count - 1) * Pow2(s))
      && layer.numTemporalLayers == (if p.temporalLayersSupported then p.temporalLayers(s) else 1)
      && layer.maxFramerate == p.maxFramerate && layer.maxQp == p.maxQp && layer.active
      && layer.bitratePriority == (if s == 0 then Some(p.bitratePriority) else None)
  {
    LayerSizeIsQuotient(width, count, s, p.sizeExperiment);
    LayerSizeIsQuotient(height, count, s, p.sizeExperiment);
  }

  /** The bitrates of a layer between two rows are those on the lines, rounded down; in the base layer target and max
      are then multiplied by the factor and rounded down again; and neither is left below the minimum. */
  lemma NormalLayerRates(width: int, height: int, count: nat, s: nat, p: LayerParams, i: nat, f: SimulcastFormat)
    requires width >= 0 && height >= 0 && s < count
    requires var layer, formats := NormalLayer(width, height, count, s, p), GetSimulcastFormats(p.lowres);
      && LiesBetween(formats, i, layer.width * layer.height)
      && OnTheLines(formats[i - 1], formats[i], layer.width * layer.height, 0.1, f)
    ensures var layer := NormalLayer(width, height, count, s, p);
            var factor := if s == 0 then p.rateFactor else 1.0;
      && layer.minBitrateBps == f.minBitrate.Floor
      && layer.targetBitrateBps == Max(f.minBitrate.Floor, (f.targetBitrate.Floor as real * factor).Floor)
      && layer.maxBitrateBps == Max(f.minBitrate.Floor, (f.maxBitrate.Floor as real * factor).Floor)
  {
    var w, h := LayerSize(width, count, s, p.sizeExperiment), LayerSize(height, count, s, p.sizeExperiment);
    InterpolationIsLinear(w, h, None, p.lowres, i);
    LayerRates(GetSimulcastFormats(p.lowres), i, w, h, Interpolated(w, h, None, p.lowres), s, p, f);
  }

  lemma LayerRates(formats: seq<SimulcastFormat>, i: nat, w: int, h: int, row: SimulcastFormat, s: nat, p: LayerParams,
                   f: SimulcastFormat)
    requires LiesBetween(formats, i, w * h)
    requires OnTheLines(formats[i - 1], formats[i], w * h, 0.1, f) && OnTheLines(formats[i - 1], formats[i], w * h, 0.1, row)
    ensures var layer, factor := LayerFrom(w, h, row, s, p), if s == 0 then p.rateFactor else 1.0;
      && layer.minBitrateBps == f.minBitrate.Floor
      && layer.targetBitrateBps == Max(f.minBitrate.Floor, (f.targetBitrate.Floor as real * factor).Floor)
      && layer.maxBitrateBps == Max(f.minBitrate.Floor, (f.maxBitrate.Floor as real * factor).Floor)
  {
    OneRowOnTheLines(formats, i, w * h, f, row);
    RatesOfLayer(w, h, row, s, p);
  }

  lemma RatesOfLayer(w: int, h: int, row: SimulcastFormat, s: nat, p: LayerParams)
    ensures var layer, factor := LayerFrom(w, h, row, s, p), if s == 0 then p.rateFactor else 1.0;
      && layer.minBitrateBps == row.minBitrate.Floor
      && layer.targetBitrateBps == Max(row.minBitrate.Floor, (row.targetBitrate.Floor as real * factor).Floor)
      && layer.maxBitrateBps == Max(row.minBitrate.Floor, (row.maxBitrate.Floor as real * factor).Floor)
  {
  }

  lemma OneRowOnTheLines(formats: seq<SimulcastFormat>, i: nat, pixels: int, f: SimulcastFormat, g: SimulcastFormat)
    requires LiesBetween(formats, i, pixels)
    requires OnTheLines(formats[i - 1], formats[i], pixels, 0.1, f) && OnTheLines(formats[i - 1], formats[i], pixels, 0.1, g)
    ensures f.minBitrate == g.minBitrate && f.targetBitrate == g.targetBitrate && f.maxBitrate == g.maxBitrate
  {
    var up, down := formats[i - 1], formats[i];
    var u, d := up.Pixels(), down.Pixels();
    OneRateOnTheLine(u, d, up.minBitrate, down.minBitrate, pixels, f.minBitrate, g.minBitrate);
    OneRateOnTheLine(u, d, up.targetBitrate, down.targetBitrate, pixels, f.targetBitrate, g.targetBitrate);
    OneRateOnTheLine(u, d, up.maxBitrate, down.maxBitrate, pixels, f.maxBitrate, g.maxBitrate);
  }

  /** min <= target <= max. */
  ghost predicate Ordered(layer: VideoStream) {
    layer.minBitrateBps <= layer.targetBitrateBps <= layer.maxBitrateBps
  }

  /** `above` doubles `below`, and no bitrate falls on the way up. */
  ghost predicate Rung(below: VideoStream, above: VideoStream) {
    && above.width == 2 * below.width && above.height == 2 * below.height
    && below.minBitrateBps <= above.minBitrateBps
    && below.targetBitrateBps <= above.targetBitrateBps
    && below.maxBitrateBps <= above.maxBitrateBps
  }

  lemma FloorIsMonotone(a: real, b: real)
    requires a <= b
    ensures a.Floor <= b.Floor
  {
  }

  lemma ScaledFloor(a: int, b: int, factor: real)
    requires 0 <= a <= b && 0.0 <= factor
    ensures 0 <= (a as real * factor).Floor <= (b as real * factor).Floor
  {
    ProductsClimb(a as real, b as real, factor);
  }

  lemma ProductsClimb(a: real, b: real, factor: real)
    requires 0.0 <= a <= b && 0.0 <= factor
    ensures 0.0 <= a * factor <= b * factor
  {
    var gap := b - a;
    assert 0.0 <= gap * factor;
    assert b * factor == a * factor + gap * factor;
  }

  lemma ShareOfReal(a: real, factor: real)
    requires 0.0 <= a && 0.0 <= factor <= 1.0
    ensures a * factor <= a
  {
    var rest := 1.0 - factor;
    assert a * rest >= 0.0;
    assert a * factor + a * rest == a;
  }

  lemma FloorAtMost(x: real, n: int)
    requires x < n as real + 1.0
    ensures x.Floor <= n
  {
  }

  /** A factor that does not lift the highest rate by a whole bit per second. */
  ghost predicate LadderFactor(factor: real) {
    0.0 <= factor && (TOP_RATE as real * factor).Floor <= TOP_RATE
  }

  lemma LiftedByLessThanOne(a: real, top: real, factor: real)
    requires 0.0 <= a <= top && 1.0 <= factor && top * factor < top + 1.0
    ensures a * factor < a + 1.0
  {
    var extra := factor - 1.0;
    ProductsClimb(a, top, extra);
    assert top * factor == top + top * extra;
    assert a * factor == a + a * extra;
  }

  lemma ScaledDownReal(a: real, factor: real)
    requires 0.0 <= a <= TOP_RATE as real && LadderFactor(factor)
    ensures a * factor < a + 1.0
  {
    if factor <= 1.0 {
      ShareOfReal(a, factor);
    } else {
      TopIsLiftedByLessThanOne(factor);
      LiftedByLessThanOne(a, TOP_RATE as real, factor);
    }
  }

  lemma TopIsLiftedByLessThanOne(factor: real)
    requires LadderFactor(factor)
    ensures TOP_RATE as real * factor < TOP_RATE as real + 1.0
  {
    var top := TOP_RATE as real * factor;
    assert top.Floor <= TOP_RATE;
    assert top < top.Floor as real + 1.0;
  }

  /** Such a factor lifts no rate of the table. */
  lemma ScaledDown(a: int, factor: real)
    requires 0 <= a <= TOP_RATE && LadderFactor(factor)
    ensures (a as real * factor).Floor <= a
  {
    ScaledDownReal(a as real, factor);
    FloorAtMost(a as real * factor, a);
  }

  /** Scaling keeps target below max, and nothing negative comes out. */
  lemma ScaledRatesAreOrdered(min: int, target: int, max: int, factor: real)
    requires 0 <= target <= max && 0.0 <= factor
    ensures min <= ScaledRate(min, target, factor) <= ScaledRate(min, max, factor)
    ensures 0 <= ScaledRate(min, max, factor)
  {
    ScaledFloor(target, max, factor);
  }

  /** A scaled rate stays below any larger rate that is not scaled. */
  lemma RateClimbs(min: int, rate: int, factor: real, min': int, rate': int)
    requires min <= min' && 0 <= rate <= rate' && rate <= TOP_RATE && LadderFactor(factor)
    ensures ScaledRate(min, rate, factor) <= ScaledRate(min', rate', 1.0)
  {
    ScaledDown(rate, factor);
    assert rate' as real * 1.0 == rate' as real;
  }

  lemma LayerFromIsOrdered(w: int, h: int, f: SimulcastFormat, s: nat, p: LayerParams)
    requires 0.0 <= f.targetBitrate <= f.maxBitrate && 0.0 <= p.rateFactor
    ensures Ordered(LayerFrom(w, h, f, s, p)) && LayerFrom(w, h, f, s, p).maxBitrateBps >= 0
  {
    FloorIsMonotone(0.0, f.targetBitrate);
    FloorIsMonotone(f.targetBitrate, f.maxBitrate);
    ScaledRatesAreOrdered(f.minBitrate.Floor, f.targetBitrate.Floor, f.maxBitrate.Floor, FactorOf(s, p));
  }

  lemma OneIsALadderFactor()
    ensures LadderFactor(1.0)
  {
  }

  lemma LayersFromRows(w: int, h: int, small: SimulcastFormat, large: SimulcastFormat, s: nat, p: LayerParams)
    requires 0.0 <= small.targetBitrate <= small.maxBitrate <= TOP_RATE as real && LadderFactor(p.rateFactor)
    requires small.minBitrate <= large.minBitrate
    requires small.targetBitrate <= large.targetBitrate && small.maxBitrate <= large.maxBitrate
    ensures Rung(LayerFrom(w, h, small, s, p), LayerFrom(2 * w, 2 * h, large, s + 1, p))
  {
    FloorIsMonotone(0.0, small.targetBitrate);
    FloorIsMonotone(0.0, small.maxBitrate);
    FloorIsMonotone(small.minBitrate, large.minBitrate);
    FloorIsMonotone(small.targetBitrate, large.targetBitrate);
    FloorIsMonotone(small.maxBitrate, large.maxBitrate);
    FloorIsMonotone(small.targetBitrate, small.maxBitrate);
    FloorIsMonotone(small.maxBitrate, TOP_RATE as real);
    OneIsALadderFactor();
    var min, min' := small.minBitrate.Floor, large.minBitrate.Floor;
    RateClimbs(min, small.targetBitrate.Floor, FactorOf(s, p), min', large.targetBitrate.Floor);
    RateClimbs(min, small.maxBitrate.Floor, FactorOf(s, p), min', large.maxBitrate.Floor);
  }

  /** Every layer of the ladder is ordered, whatever the share of the base layer. */
  lemma NormalLayerIsOrdered(width: int, height: int, count: nat, s: nat, p: LayerParams)
    requires width >= 0 && height >= 0 && s < count && 0.0 <= p.rateFactor
    ensures Ordered(NormalLayer(width, height, count, s, p))
    ensures NormalLayer(width, height, count, s, p).maxBitrateBps >= 0
  {
    var w, h := LayerSize(width, count, s, p.sizeExperiment), LayerSize(height, count, s, p.sizeExperiment);
    InterpolatedTargetIsBelowMax(w, h, None, p.lowres);
    LayerFromIsOrdered(w, h, Interpolated(w, h, None, p.lowres), s, p);
  }

  /** The ladder climbs: sizes double, and no bitrate falls going up. */
  lemma LayersFormALadder(width: int, height: int, count: nat, s: nat, p: LayerParams)
    requires width >= 0 && height >= 0 && s + 1 < count
    requires LadderFactor(p.rateFactor) && ExperimentFits(p.sizeExperiment, count)
    ensures Rung(NormalLayer(width, height, count, s, p), NormalLayer(width, height, count, s + 1, p))
  {
    LayerSizesDouble(width, count, s + 1, p.sizeExperiment);
    LayerSizesDouble(height, count, s + 1, p.sizeExperiment);
    var w, h := LayerSize(width, count, s, p.sizeExperiment), LayerSize(height, count, s, p.sizeExperiment);
    DoubledPixels(w, h);
    InterpolatedIsMonotone(w, h, 2 * w, 2 * h, p.lowres);
    InterpolatedTargetIsBelowMax(w, h, None, p.lowres);
    InterpolatedIsBelowTop(w, h, p.lowres);
    LayersFromRows(w, h, Interpolated(w, h, None, p.lowres), Interpolated(2 * w, 2 * h, None, p.lowres), s, p);
  }

  lemma DoubledPixels(w: int, h: int)
    requires w >= 0 && h >= 0
    ensures 0 <= w * h <= (2 * w) * (2 * h)
  {
    assert (2 * w) * (2 * h) == 4 * (w * h);
  }

  /** In a square picture of 2^(count + 10) the two lowest layers, 2048 and 4096, both take the top row of the
      table, so a larger factor breaks the rung between them. */
  lemma LargerFactorBreaksTheLadder(p: LayerParams, count: nat)
    requires 0.0 <= p.rateFactor && !LadderFactor(p.rateFactor) && count >= 2
    ensures !Rung(NormalLayer(Pow2(count + 10), Pow2(count + 10), count, 0, p),
                  NormalLayer(Pow2(count + 10), Pow2(count + 10), count, 1, p))
  {
    PowerLayers(count + 10, count, 0, p.sizeExperiment);
    PowerLayers(count + 10, count, 1, p.sizeExperiment);
    SmallPowers();
    TopRow(2048, 2048, p.lowres);
    TopRow(4096, 4096, p.lowres);
    TopRateFalls(SIMULCAST_FORMATS[0].minBitrate.Floor, p.rateFactor);
  }

  lemma SmallPowers()
    ensures Pow2(11) == 2048 && Pow2(12) == 4096
  {
    assert Pow2(4) == 16;
    assert Pow2(8) == 256;
    assert Pow2(11) == 2048;
  }

  lemma TopRateFalls(min: int, factor: real)
    requires min <= TOP_RATE && 0.0 <= factor && !LadderFactor(factor)
    ensures SIMULCAST_FORMATS[0].maxBitrate.Floor == TOP_RATE && SIMULCAST_FORMATS[0].minBitrate.Floor <= TOP_RATE
    ensures ScaledRate(min, TOP_RATE, factor) > ScaledRate(min, TOP_RATE, 1.0)
  {
    assert TOP_RATE as real * 1.0 == TOP_RATE as real;
  }

  /** An exponent that clears too few bits: a square picture of 3 * 2^e has a layer of 3 above one of 1. */
  lemma ExperimentBreaksTheLadder(p: LayerParams, e: nat, count: nat)
    requires p.sizeExperiment == Some(e) && e + 2 <= count
    ensures !Rung(NormalLayer(3 * Pow2(e), 3 * Pow2(e), count, count - 2 - e, p),
                  NormalLayer(3 * Pow2(e), 3 * Pow2(e), count, count - 1 - e, p))
  {
    var size := 3 * Pow2(e);
    QuotientIs(size, Pow2(e), 3, 0);
    assert NormalizeSimulcastSize(size, count, Some(e)) == size;
    MultipleHalved(3, e, e);
    assert Pow2(0) == 1;
    assert LayerSize(size, count, count - 1 - e, Some(e)) == 3 && LayerSize(size, count, count - 2 - e, Some(e)) == 1;
  }

  lemma TopRow(width: int, height: int, lowres: bool)
    requires width >= 1920 && height >= 1080
    ensures width * height >= 0 && Interpolated(width, height, None, lowres) == SIMULCAST_FORMATS[0]
  {
    TablePixels();
    assert width * height >= 1920 * height >= 1920 * 1080;
    assert GetSimulcastFormats(lowres)[0] == SIMULCAST_FORMATS[0];
  }

  /** All pictures give a climbing ladder of `count` layers. */
  ghost predicate AllClimb(count: nat, p: LayerParams) {
    forall width: nat, height: nat, s: nat :: s + 1 < count ==>
      Rung(NormalLayer(width, height, count, s, p), NormalLayer(width, height, count, s + 1, p))
  }

  lemma ClimbsAt(count: nat, p: LayerParams, size: nat, s: nat)
    requires AllClimb(count, p) && s + 1 < count
    ensures Rung(NormalLayer(size, size, count, s, p), NormalLayer(size, size, count, s + 1, p))
  {
  }

  /** For each number of layers: every picture gives a climbing ladder exactly when the share of the base layer
      lifts no rate by a whole bit per second, and the size experiment is off or clears enough bits. */
  lemma LadderClimbsExactly(count: nat, p: LayerParams)
    requires 0.0 <= p.rateFactor && count >= 2
    ensures AllClimb(count, p) <==> LadderFactor(p.rateFactor) && ExperimentFits(p.sizeExperiment, count)
  {
    if LadderFactor(p.rateFactor) && ExperimentFits(p.sizeExperiment, count) {
      forall width: nat, height: nat, s: nat | s + 1 < count
        ensures Rung(NormalLayer(width, height, count, s, p), NormalLayer(width, height, count, s + 1, p))
      {
        LayersFormALadder(width, height, count, s, p);
      }
    } else if AllClimb(count, p) {
      if !LadderFactor(p.rateFactor) {
        ClimbsAt(count, p, Pow2(count + 10), 0);
        LargerFactorBreaksTheLadder(p, count);
      } else {
        var e := p.sizeExperiment.value;
        ClimbsAt(count, p, 3 * Pow2(e), count - 2 - e);
        ExperimentBreaksTheLadder(p, e, count);
      }
    }
  }

  /** The factor gives the base layer the rate it has with three temporal layers, less with a heavy base. */
  lemma BaseLayerKeepsItsShare(numTemporalLayers: nat, baseHeavy: bool, tl0Share: nat -> real)
    requires tl0Share(numTemporalLayers) != 0.0
    ensures var factor := BaseLayerRateFactor(numTemporalLayers, baseHeavy, tl0Share);
      if numTemporalLayers == 3 && baseHeavy then factor * 0.6 == 0.4
      else factor * tl0Share(numTemporalLayers) == tl0Share(3)
  {
  }

  /** Three temporal layers always give a climbing factor; any other number does so exactly when the share of the
      first of three layers is no more, to a bit per second, than the share of the first of that many. */
  lemma TemporalLayersClimbExactly(numTemporalLayers: nat, baseHeavy: bool, tl0Share: nat -> real)
    requires tl0Share(numTemporalLayers) > 0.0 && tl0Share(3) >= 0.0
    ensures LadderFactor(BaseLayerRateFactor(numTemporalLayers, baseHeavy, tl0Share)) <==>
              numTemporalLayers == 3 ||
              TOP_RATE as real * tl0Share(3) < (TOP_RATE + 1) as real * tl0Share(numTemporalLayers)
  {
    if numTemporalLayers == 3 {
      OneIsALadderFactor();
      var heavy := BaseLayerRateFactor(3, true, tl0Share);
      assert 0.6 * heavy == 0.4;
    } else {
      QuotientBelow(tl0Share(3), tl0Share(numTemporalLayers), TOP_RATE);
    }
  }

  /** Four temporal layers whose first has a quarter of the rate, against 0.4 for the first of three. */
  lemma FourTemporalLayersFall(baseHeavy: bool, tl0Share: nat -> real)
    requires tl0Share(3) == 0.4 && tl0Share(4) == 0.25
    ensures !LadderFactor(BaseLayerRateFactor(4, baseHeavy, tl0Share))
  {
    TemporalLayersClimbExactly(4, baseHeavy, tl0Share);
  }

  lemma QuotientBelow(a: real, b: real, top: nat)
    requires a >= 0.0 && b > 0.0
    ensures 0.0 <= a / b && ((top as real * (a / b)).Floor <= top <==> top as real * a < (top + 1) as real * b)
  {
    var f := a / b;
    assert f * b == a;
    assert top as real * a == (top as real * f) * b;
    var x, y := top as real * f, (top + 1) as real;
    if x < y {
      assert (y - x) * b > 0.0;
      assert y * b - x * b > 0.0;
    } else {
      assert (x - y) * b >= 0.0;
      assert x * b - y * b >= 0.0;
    }
  }

  /* ---- how many layers ---- */

  lemma PixelsNotNegative(width: int, height: int)
    requires width >= 0 && height >= 0
    ensures width * height >= 0
  {
  }

  ghost function LimitedLayerCount(width: int, height: int, needLayers: nat, layerCount: nat,
                                   legacyLimit: bool, maxRatio: Option<real>, lowres: bool): nat
    requires width >= 0 && height >= 0
  {
    PixelsNotNegative(width, height);
    if legacyLimit then
      Min(layerCount, Max(needLayers, Interpolated(width, height, maxRatio, lowres).maxLayers))
    else layerCount
  }

  /** No more than asked for; and where the limit applies, no more than are needed unless the picture allows them. */
  ghost predicate IsAllowed(count: nat, width: int, height: int, needLayers: nat, layerCount: nat,
                            legacyLimit: bool, maxRatio: Option<real>, lowres: bool)
    requires width >= 0 && height >= 0 && width * height >= 0
  {
    && count <= layerCount
    && (legacyLimit ==> count <= needLayers || count <= Interpolated(width, height, maxRatio, lowres).maxLayers)
  }

  ghost predicate IsLargestAllowed(count: nat, width: int, height: int, needLayers: nat, layerCount: nat,
                                   legacyLimit: bool, maxRatio: Option<real>, lowres: bool)
    requires width >= 0 && height >= 0
  {
    PixelsNotNegative(width, height);
    && IsAllowed(count, width, height, needLayers, layerCount, legacyLimit, maxRatio, lowres)
    && forall n: nat :: IsAllowed(n, width, height, needLayers, layerCount, legacyLimit, maxRatio, lowres) ==> n <= count
  }

  lemma LimitIsLargestAllowed(width: int, height: int, needLayers: nat, layerCount: nat,
                              legacyLimit: bool, maxRatio: Option<real>, lowres: bool)
    requires width >= 0 && height >= 0
    ensures IsLargestAllowed(LimitedLayerCount(width, height, needLayers, layerCount, legacyLimit, maxRatio, lowres),
              width, height, needLayers, layerCount, legacyLimit, maxRatio, lowres)
  {
  }

  method LimitSimulcastLayerCount(width: int, height: int, needLayers: nat, layerCount: nat,
                                  legacyLimit: bool, maxRatio: Option<real>, lowres: bool) returns (count: nat)
    requires width >= 0 && height >= 0
    ensures count == LimitedLayerCount(width, height, needLayers, layerCount, legacyLimit, maxRatio, lowres)
    ensures IsLargestAllowed(count, width, height, needLayers, layerCount, legacyLimit, maxRatio, lowres)
    ensures needLayers <= layerCount ==> needLayers <= count
    ensures layerCount >= 1 ==> count >= 1
  {
    LimitIsLargestAllowed(width, height, needLayers, layerCount, legacyLimit, maxRatio, lowres);
    count := layerCount;
    if legacyLimit {
      var format := InterpolateSimulcastFormat(width, height, maxRatio, lowres);
      InterpolatedLayersPositive(width, height, maxRatio, lowres);
      var adaptive := Max(needLayers, format.maxLayers);
      if count > adaptive {
        count := adaptive;
      }
    }
  }

  lemma InterpolatedLayersPositive(width: int, height: int, maxRatio: Option<real>, lowres: bool)
    requires width >= 0 && height >= 0 && width * height >= 0
    ensures Interpolated(width, height, maxRatio, lowres).maxLayers >= 1
  {
    var formats := GetSimulcastFormats(lowres);
    assert forall i :: 0 <= i < |formats| ==> formats[i].maxLayers >= 1;
  }

  /* ---- the boost ---- */

  ghost function TargetSum(layers: seq<VideoStream>): int {
    if layers == [] then 0 else TargetSum(layers[..|layers| - 1]) + layers[|layers| - 1].targetBitrateBps
  }

  /** Lower layers at their target, the highest one at its maximum. */
  ghost function TotalMax(layers: seq<VideoStream>): int {
    if layers == [] then 0
    else TargetSum(layers[..|layers| - 1]) + layers[|layers| - 1].maxBitrateBps
  }

  /** A new highest layer counts with its maximum, and the one that was highest counts with its target from then on. */
  lemma TotalMaxGrows(layers: seq<VideoStream>, layer: VideoStream)
    ensures TotalMax([]) == 0 && TotalMax([layer]) == layer.maxBitrateBps
    ensures layers != [] ==>
              var top := layers[|layers| - 1];
              TotalMax(layers + [layer]) == TotalMax(layers) - top.maxBitrateBps + top.targetBitrateBps + layer.maxBitrateBps
  {
    assert (layers + [layer])[..|layers|] == layers;
  }

  method GetTotalMaxBitrate(layers: array<VideoStream>) returns (total: int)
    ensures total == TotalMax(layers[..])
  {
    if layers.Length == 0 {
      return 0;
    }
    total := 0;
    for s := 0 to layers.Length - 1
      invariant total == TargetSum(layers[..s])
    {
      assert layers[..s + 1][..s] == layers[..s];
      total := total + layers[s].targetBitrateBps;
    }
    assert layers[..][..layers.Length - 1] == layers[..layers.Length - 1];
    total := total + layers[layers.Length - 1].maxBitrateBps;
  }

  /** What the limit leaves over goes to the highest layer. */
  ghost function Boosted(layers: seq<VideoStream>, maxBitrate: int): seq<VideoStream> {
    if layers == [] then layers else
      var n := |layers| - 1;
      layers[n := layers[n].(maxBitrateBps := layers[n].maxBitrateBps + Max(0, maxBitrate - TotalMax(layers)))]
  }

  /** After the boost the layers together use the limit, unless they used more before. */
  lemma BoostSpendsTheLimit(layers: seq<VideoStream>, maxBitrate: int)
    requires layers != []
    ensures TotalMax(Boosted(layers, maxBitrate)) == Max(TotalMax(layers), maxBitrate)
  {
    assert Boosted(layers, maxBitrate)[..|layers| - 1] == layers[..|layers| - 1];
  }

  method BoostMaxSimulcastLayer(maxBitrate: int, layers: array<VideoStream>)
    modifies layers
    ensures layers[..] == Boosted(old(layers[..]), maxBitrate)
  {
    if layers.Length == 0 {
      return;
    }
    var n := layers.Length - 1;
    var total := GetTotalMaxBitrate(layers);
    if total < maxBitrate {
      var left := maxBitrate - total;
      layers[n] := layers[n].(maxBitrateBps := layers[n].maxBitrateBps + left);
    }
  }
}
