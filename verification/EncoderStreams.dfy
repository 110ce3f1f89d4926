/** EncoderStreamFactory without conference-mode screenshare: from the configuration to the layers. */
module EncoderStreams {
  import opened Wrappers
  import opened Simulcast

  /** A rate or frame rate of 0 or below is not configured, nor is a scale factor of -1. */
  datatype LayerConfig = LayerConfig(
    active: bool,
    minBitrateBps: int,
    targetBitrateBps: int,
    maxBitrateBps: int,
    maxFramerate: int,
    numTemporalLayers: Option<nat>,
    scaleResolutionDownBy: real)

  datatype EncoderConfig = EncoderConfig(numberOfStreams: nat, simulcastLayers: seq<LayerConfig>, maxBitrateBps: int)
  {
    predicate Valid() {
      1 < numberOfStreams <= |simulcastLayers|
    }
  }

  /** Enough layers for the first active one to be among them. */
  method FindRequiredActiveLayers(config: EncoderConfig) returns (n: nat)
    requires config.Valid()
    ensures n == RequiredActiveLayers(config)
  {
    for i := 0 to config.numberOfStreams
      invariant forall k :: 0 <= k < i ==> !config.simulcastLayers[k].active
    {
      if config.simulcastLayers[i].active {
        FirstActiveIs(config, 0, i);
        return i + 1;
      }
    }
    NoneActive(config, 0);
    return 0;
  }

  ghost function RequiredActiveLayers(config: EncoderConfig): (n: nat)
    requires config.Valid()
    ensures n <= config.numberOfStreams
    ensures n > 0 ==> config.simulcastLayers[n - 1].active
    ensures (exists k :: 0 <= k < config.numberOfStreams && config.simulcastLayers[k].active) ==> n > 0
  {
    RequiredFrom(config, 0)
  }

  ghost function RequiredFrom(config: EncoderConfig, i: nat): (n: nat)
    requires config.Valid() && i <= config.numberOfStreams
    ensures n <= config.numberOfStreams
    ensures n > 0 ==> config.simulcastLayers[n - 1].active
    ensures n == 0 ==> forall k :: i <= k < config.numberOfStreams ==> !config.simulcastLayers[k].active
    decreases config.numberOfStreams - i
  {
    if i == config.numberOfStreams then 0
    else if config.simulcastLayers[i].active then i + 1
    else RequiredFrom(config, i + 1)
  }

  lemma {:induction false} FirstActiveIs(config: EncoderConfig, i: nat, first: nat)
    requires config.Valid() && i <= first < config.numberOfStreams && config.simulcastLayers[first].active
    requires forall k :: i <= k < first ==> !config.simulcastLayers[k].active
    ensures RequiredFrom(config, i) == first + 1
    decreases first - i
  {
    if i < first {
      FirstActiveIs(config, i + 1, first);
    }
  }

  lemma {:induction false} NoneActive(config: EncoderConfig, i: nat)
    requires config.Valid() && i <= config.numberOfStreams
    requires forall k :: i <= k < config.numberOfStreams ==> !config.simulcastLayers[k].active
    ensures RequiredFrom(config, i) == 0
    decreases config.numberOfStreams - i
  {
    if i < config.numberOfStreams {
      NoneActive(config, i + 1);
    }
  }

  /* ---- the configured size, frame rate and temporal layers of one layer ---- */

  const MIN_LAYER_SIZE := 16

  function MaxReal(a: real, b: real): real { if a >= b then a else b }

  /** One bit set: halving comes down to 1 without a remainder. */
  predicate PowerOfTwo(value: int)
    decreases value
  {
    value == 1 || (value > 1 && value % 2 == 0 && PowerOfTwo(value / 2))
  }

  lemma {:induction false} PowersOfTwo(n: nat)
    ensures PowerOfTwo(Pow2(n))
  {
    if n > 0 {
      PowersOfTwo(n - 1);
    }
  }

  lemma {:induction false} OnlyPowersOfTwo(value: int)
    requires PowerOfTwo(value)
    ensures exists n: nat :: value == Pow2(n)
    decreases value
  {
    if value == 1 {
      assert value == Pow2(0);
    } else {
      OnlyPowersOfTwo(value / 2);
      var n: nat :| value / 2 == Pow2(n);
      assert value == Pow2(n + 1);
    }
  }

  predicate IsPowerScale(scale: real) {
    scale.Floor as real == scale && PowerOfTwo(scale.Floor)
  }

  ghost predicate ScalesArePowers(layers: seq<LayerConfig>) {
    forall i :: 0 <= i < |layers| ==> IsPowerScale(MaxReal(layers[i].scaleResolutionDownBy, 1.0))
  }

  method IsScaleFactorsPowerOfTwo(config: EncoderConfig) returns (ok: bool)
    ensures ok <==> ScalesArePowers(config.simulcastLayers)
  {
    for i := 0 to |config.simulcastLayers|
      invariant ScalesArePowers(config.simulcastLayers[..i])
    {
      var scale := MaxReal(config.simulcastLayers[i].scaleResolutionDownBy, 1.0);
      if scale.Floor as real != scale || !PowerOfTwo(scale.Floor) {
        return false;
      }
    }
    assert config.simulcastLayers[..|config.simulcastLayers|] == config.simulcastLayers;
    return true;
  }

  ghost predicate HasScale(layers: seq<LayerConfig>) {
    exists i :: 0 <= i < |layers| && layers[i].scaleResolutionDownBy != -1.0
  }

  method AnyScale(config: EncoderConfig) returns (found: bool)
    ensures found <==> HasScale(config.simulcastLayers)
  {
    for i := 0 to |config.simulcastLayers|
      invariant !HasScale(config.simulcastLayers[..i])
    {
      if config.simulcastLayers[i].scaleResolutionDownBy != -1.0 {
        return true;
      }
    }
    assert config.simulcastLayers[..|config.simulcastLayers|] == config.simulcastLayers;
    return false;
  }

  /** The picture the scale factors divide: normalized unless some factor is no power of two. */
  ghost function ScalingBase(size: int, config: EncoderConfig, experiment: Option<nat>): (r: int)
    requires size >= 0 && config.Valid()
    ensures r >= 0
  {
    if !HasScale(config.simulcastLayers) || ScalesArePowers(config.simulcastLayers) || experiment.Some?
    then NormalizeSimulcastSize(size, config.numberOfStreams, experiment)
    else size
  }

  function ScaledSize(base: int, scale: real): int {
    Max((base as real / MaxReal(scale, 1.0)).Floor, MIN_LAYER_SIZE)
  }

  /** What the layers are shaped by: the picture to scale, if anything is scaled, and the codec. */
  datatype Shape = Shape(scaled: bool, width: int, height: int, codecHasTemporalLayers: bool)

  ghost function Shaped(layer: VideoStream, c: LayerConfig, shape: Shape): VideoStream {
    layer.(
      numTemporalLayers := if shape.codecHasTemporalLayers then c.numTemporalLayers.GetOr(layer.numTemporalLayers)
                           else layer.numTemporalLayers,
      maxFramerate := if c.maxFramerate > 0 then c.maxFramerate else layer.maxFramerate,
      width := if shape.scaled then ScaledSize(shape.width, c.scaleResolutionDownBy) else layer.width,
      height := if shape.scaled then ScaledSize(shape.height, c.scaleResolutionDownBy) else layer.height)
  }

  /** The shape is decided before the loop over the layers. */
  method FindShape(width: int, height: int, config: EncoderConfig, experiment: Option<nat>, temporal: bool)
    returns (shape: Shape)
    requires width >= 0 && height >= 0 && config.Valid()
    ensures shape == ShapeOf(width, height, config, experiment, temporal)
  {
    var scaled := AnyScale(config);
    var powers := true;
    if scaled {
      powers := IsScaleFactorsPowerOfTwo(config);
    }
    var normalized := powers || experiment.Some?;
    shape := Shape(scaled,
      if normalized then NormalizeSimulcastSize(width, config.numberOfStreams, experiment) else width,
      if normalized then NormalizeSimulcastSize(height, config.numberOfStreams, experiment) else height,
      temporal);
  }

  ghost function ShapeOf(width: int, height: int, config: EncoderConfig, experiment: Option<nat>, temporal: bool): Shape
    requires width >= 0 && height >= 0 && config.Valid()
  {
    Shape(HasScale(config.simulcastLayers), ScalingBase(width, config, experiment),
      ScalingBase(height, config, experiment), temporal)
  }

  lemma RealQuotient(x: int, d: nat)
    requires x >= 0 && d > 0
    ensures (x as real / d as real).Floor == x / d
  {
    var q, rest := x / d, x % d;
    assert x == q * d + rest;
    var f := x as real / d as real;
    assert f * d as real == x as real;
    assert q as real * d as real == (q * d) as real;
    RealQuotientBounds(f, d as real, q as real, rest as real);
  }

  lemma RealQuotientBounds(f: real, d: real, q: real, rest: real)
    requires d > 0.0 && f * d == q * d + rest && 0.0 <= rest < d
    ensures q <= f < q + 1.0
  {
    var g := f - q;
    assert g * d == rest;
    ProductSide(g, d);
  }

  lemma ProductSide(g: real, d: real)
    requires d > 0.0
    ensures g < 0.0 ==> g * d < 0.0
    ensures g >= 1.0 ==> g * d >= d
  {
    if g < 0.0 {
      assert (0.0 - g) * d > 0.0;
    }
    if g >= 1.0 {
      assert (g - 1.0) * d >= 0.0;
    }
  }

  /** Scale factors 2^(n - 1), ..., 2, 1 spell out the default: they give every layer of a full ladder the size it
      has without them, as long as that is not below the minimum. */
  lemma DefaultScalesChangeNothing(size: int, config: EncoderConfig, experiment: Option<nat>, i: nat)
    requires size >= 0 && config.Valid() && i < config.numberOfStreams == |config.simulcastLayers|
    requires forall k :: 0 <= k < config.numberOfStreams ==>
               config.simulcastLayers[k].scaleResolutionDownBy == Pow2(config.numberOfStreams - 1 - k) as real
    ensures ScaledSize(ScalingBase(size, config, experiment), config.simulcastLayers[i].scaleResolutionDownBy) ==
              Max(LayerSize(size, config.numberOfStreams, i, experiment), MIN_LAYER_SIZE)
  {
    var n := config.numberOfStreams;
    forall k | 0 <= k < n ensures IsPowerScale(MaxReal(config.simulcastLayers[k].scaleResolutionDownBy, 1.0)) {
      PowerScale(n - 1 - k);
    }
    var base := NormalizeSimulcastSize(size, n, experiment);
    assert ScalingBase(size, config, experiment) == base;
    PowerScale(n - 1 - i);
    RealQuotient(base, Pow2(n - 1 - i));
    HalvedIsQuotient(base, n - 1 - i);
  }

  lemma PowerScale(n: nat)
    ensures MaxReal(Pow2(n) as real, 1.0) == Pow2(n) as real && IsPowerScale(Pow2(n) as real)
  {
    PowersOfTwo(n);
  }

  /* ---- the configured bitrates of one layer ---- */

  ghost function Configured(layer: VideoStream, c: LayerConfig): VideoStream {
    var min := if c.minBitrateBps > 0 then c.minBitrateBps else layer.minBitrateBps;
    var max := if c.maxBitrateBps > 0 then c.maxBitrateBps else layer.maxBitrateBps;
    var target := if c.targetBitrateBps > 0 then c.targetBitrateBps else layer.targetBitrateBps;
    var out := layer.(active := c.active, minBitrateBps := min, maxBitrateBps := max, targetBitrateBps := target);
    if c.minBitrateBps > 0 && c.maxBitrateBps > 0 then
      var t := if c.targetBitrateBps <= 0 then max * 3 / 4 else target;
      out.(targetBitrateBps := if t < min then max else t)
    else if c.minBitrateBps > 0 then
      out.(targetBitrateBps := Max(target, min), maxBitrateBps := Max(max, min))
    else if c.maxBitrateBps > 0 then
      var min' := Min(min, max);
      var t := if c.targetBitrateBps <= 0 then Max(target, max * 3 / 4) else target;
      out.(minBitrateBps := min', targetBitrateBps := Max(Min(t, max), min'))
    else out
  }

  method ConfigureLayer(layers: array<VideoStream>, i: nat, c: LayerConfig, shape: Shape)
    requires i < layers.Length
    modifies layers
    ensures layers[i] == Configured(Shaped(old(layers[i]), c, shape), c)
    ensures forall k :: 0 <= k < layers.Length && k != i ==> layers[k] == old(layers[k])
  {
    layers[i] := layers[i].(active := c.active);
    if c.numTemporalLayers.Some? && shape.codecHasTemporalLayers {
      layers[i] := layers[i].(numTemporalLayers := c.numTemporalLayers.value);
    }
    if c.maxFramerate > 0 {
      layers[i] := layers[i].(maxFramerate := c.maxFramerate);
    }
    if shape.scaled {
      var scale := MaxReal(c.scaleResolutionDownBy, 1.0);
      layers[i] := layers[i].(
        width := Max((shape.width as real / scale).Floor, MIN_LAYER_SIZE),
        height := Max((shape.height as real / scale).Floor, MIN_LAYER_SIZE));
    }
    ConfigureBitrates(layers, i, c);
  }

  method ConfigureBitrates(layers: array<VideoStream>, i: nat, c: LayerConfig)
    requires i < layers.Length && layers[i].active == c.active
    modifies layers
    ensures layers[i] == Configured(old(layers[i]), c)
    ensures forall k :: 0 <= k < layers.Length && k != i ==> layers[k] == old(layers[k])
  {
    if c.minBitrateBps > 0 {
      layers[i] := layers[i].(minBitrateBps := c.minBitrateBps);
    }
    if c.maxBitrateBps > 0 {
      layers[i] := layers[i].(maxBitrateBps := c.maxBitrateBps);
    }
    if c.targetBitrateBps > 0 {
      layers[i] := layers[i].(targetBitrateBps := c.targetBitrateBps);
    }
    if c.minBitrateBps > 0 && c.maxBitrateBps > 0 {
      if c.targetBitrateBps <= 0 {
        layers[i] := layers[i].(targetBitrateBps := layers[i].maxBitrateBps * 3 / 4);
      }
      if layers[i].targetBitrateBps < layers[i].minBitrateBps {
        layers[i] := layers[i].(targetBitrateBps := layers[i].maxBitrateBps);
      }
    } else if c.minBitrateBps > 0 {
      layers[i] := layers[i].(targetBitrateBps := Max(layers[i].targetBitrateBps, layers[i].minBitrateBps));
      layers[i] := layers[i].(maxBitrateBps := Max(layers[i].maxBitrateBps, layers[i].minBitrateBps));
    } else if c.maxBitrateBps > 0 {
      layers[i] := layers[i].(minBitrateBps := Min(layers[i].minBitrateBps, layers[i].maxBitrateBps));
      if c.targetBitrateBps <= 0 {
        layers[i] := layers[i].(
          targetBitrateBps := Max(layers[i].targetBitrateBps, layers[i].maxBitrateBps * 3 / 4));
      }
      layers[i] := layers[i].(targetBitrateBps :=
        Max(Min(layers[i].targetBitrateBps, layers[i].maxBitrateBps), layers[i].minBitrateBps));
    }
  }

  /** What the configuration of a layer has to satisfy for the fix-up to succeed. */
  predicate ConfigFits(layer: VideoStream, c: LayerConfig) {
    if c.minBitrateBps > 0 && c.maxBitrateBps > 0 then
      c.minBitrateBps <= c.maxBitrateBps && c.targetBitrateBps <= c.maxBitrateBps
    else if c.minBitrateBps > 0 then
      c.targetBitrateBps <= Max(layer.maxBitrateBps, c.minBitrateBps)
    else if c.maxBitrateBps > 0 then true
    else c.targetBitrateBps <= 0 || layer.minBitrateBps <= c.targetBitrateBps <= layer.maxBitrateBps
  }

  /** The four-way fix-up gives min <= target <= max for exactly the configurations that fit. */
  lemma FixUpOrdersExactly(layer: VideoStream, c: LayerConfig)
    requires Ordered(layer) && layer.maxBitrateBps >= 0
    ensures Ordered(Configured(layer, c)) <==> ConfigFits(layer, c)
  {
  }

  /** What the check of the parameters leaves of a layer without an explicit target. */
  predicate IsChecked(c: LayerConfig) {
    c.targetBitrateBps <= 0 && (c.minBitrateBps > 0 && c.maxBitrateBps > 0 ==> c.minBitrateBps <= c.maxBitrateBps)
  }

  function Distance(a: int, b: int): int { Max(a - b, b - a) }

  /** What the fix-up makes of a configuration that fits: the configured bounds, each pulling the other bound of the
      ladder along, and within them the rate nearest to the wished one. That is the configured target, without one
      three quarters of a configured maximum, but no less than the target of the ladder where only the maximum is
      configured, and the target of the ladder where no maximum is. With both bounds configured a wish below the
      minimum gives the maximum instead. */
  lemma ConfiguredRates(layer: VideoStream, c: LayerConfig, t: int)
    requires Ordered(layer) && layer.maxBitrateBps >= 0 && ConfigFits(layer, c)
    ensures var out, min, max := Configured(layer, c), c.minBitrateBps, c.maxBitrateBps;
            var wished := if c.targetBitrateBps > 0 then c.targetBitrateBps
                          else if min > 0 && max > 0 then max * 3 / 4
                          else if max > 0 then Max(layer.targetBitrateBps, max * 3 / 4)
                          else layer.targetBitrateBps;
      && out.minBitrateBps == (if min > 0 then min else if max > 0 then Min(layer.minBitrateBps, max) else layer.minBitrateBps)
      && out.maxBitrateBps == (if max > 0 then max else if min > 0 then Max(layer.maxBitrateBps, min) else layer.maxBitrateBps)
      && if min > 0 && max > 0 && wished < min then out.targetBitrateBps == max
         else out.minBitrateBps <= t <= out.maxBitrateBps ==> Distance(out.targetBitrateBps, wished) <= Distance(t, wished)
    ensures Ordered(Configured(layer, c))
  {
    FixUpOrdersExactly(layer, c);
  }

  /** A configuration without explicit targets fits once min <= max, which the parameter check enforces. */
  lemma NoTargetFits(layer: VideoStream, c: LayerConfig)
    requires IsChecked(c)
    requires Ordered(layer) && layer.maxBitrateBps >= 0
    ensures ConfigFits(layer, c) && Ordered(Configured(layer, c))
    ensures c.maxBitrateBps > 0 ==> Configured(layer, c).maxBitrateBps == c.maxBitrateBps
    ensures c.minBitrateBps > 0 ==> Configured(layer, c).minBitrateBps == c.minBitrateBps
  {
    FixUpOrdersExactly(layer, c);
  }

  /* ---- sort by maximum, patch the first active layer ---- */

  /** `i` comes before `j` in a stable sort by maximum. */
  ghost predicate Before(layers: seq<VideoStream>, i: nat, j: nat)
    requires i < |layers| && j < |layers|
  {
    layers[i].maxBitrateBps < layers[j].maxBitrateBps ||
    (layers[i].maxBitrateBps == layers[j].maxBitrateBps && i < j)
  }

  ghost predicate IsStableOrder(layers: seq<VideoStream>, index: seq<nat>) {
    && |index| == |layers|
    && (forall a :: 0 <= a < |index| ==> index[a] < |layers|)
    && (forall a, b :: 0 <= a < b < |index| ==> Before(layers, index[a], index[b]))
    && (forall i: nat :: i < |layers| ==> i in index)
  }

  method StableSortByMax(layers: array<VideoStream>) returns (index: seq<nat>)
    ensures IsStableOrder(layers[..], index)
  {
    index := [];
    for i := 0 to layers.Length
      invariant IsStableOrder(layers[..i], index)
    {
      var a := FindPlace(layers, i, index);
      InsertKeepsOrder(layers[..i + 1], index, a);
      index := index[..a] + [i] + index[a..];
    }
    assert layers[..layers.Length] == layers[..];
  }

  /** Where layer `i` goes among the ones before it. */
  method FindPlace(layers: array<VideoStream>, i: nat, index: seq<nat>) returns (a: nat)
    requires i < layers.Length && IsStableOrder(layers[..i], index)
    ensures FitsAt(layers[..i + 1], index, a)
  {
    a := |index|;
    while a > 0 && layers[i].maxBitrateBps < layers[index[a - 1]].maxBitrateBps
      invariant 0 <= a <= |index|
      invariant forall b :: a <= b < |index| ==> layers[i].maxBitrateBps < layers[index[b]].maxBitrateBps
    {
      a := a - 1;
    }
    assert layers[..i + 1][..i] == layers[..i];
  }

  ghost function Inserted(index: seq<nat>, a: nat, n: nat): seq<nat>
    requires a <= |index|
  {
    index[..a] + [n] + index[a..]
  }

  lemma InsertedAt(index: seq<nat>, a: nat, n: nat, c: nat)
    requires a <= |index| && c <= |index|
    ensures |Inserted(index, a, n)| == |index| + 1
    ensures Inserted(index, a, n)[c] == PlaceOf(index, a, n, c)
  {
  }

  /** The new layer goes after all that do not exceed it and before all that do. */
  ghost predicate FitsAt(layers: seq<VideoStream>, index: seq<nat>, a: nat) {
    && |layers| > 0 && a <= |index| && IsStableOrder(layers[..|layers| - 1], index)
    && (forall b :: a <= b < |index| ==> layers[|layers| - 1].maxBitrateBps < layers[index[b]].maxBitrateBps)
    && (a > 0 ==> layers[|layers| - 1].maxBitrateBps >= layers[index[a - 1]].maxBitrateBps)
  }

  lemma EarlierStaysBefore(layers: seq<VideoStream>, index: seq<nat>, a: nat, b: nat)
    requires FitsAt(layers, index, a) && b < a
    ensures index[b] < |layers| && Before(layers, index[b], |layers| - 1)
  {
    if b < a - 1 {
      assert Before(layers[..|layers| - 1], index[b], index[a - 1]);
    }
  }

  lemma LaterIsAfter(layers: seq<VideoStream>, index: seq<nat>, a: nat, b: nat)
    requires FitsAt(layers, index, a) && a <= b < |index|
    ensures index[b] < |layers| && Before(layers, |layers| - 1, index[b])
  {
  }

  lemma BeforeStays(layers: seq<VideoStream>, index: seq<nat>, b: nat, e: nat)
    requires |layers| > 0 && IsStableOrder(layers[..|layers| - 1], index) && b < e < |index|
    ensures index[b] < |layers| && index[e] < |layers| && Before(layers, index[b], index[e])
  {
    assert Before(layers[..|layers| - 1], index[b], index[e]);
  }

  /** What stands at place `c` once layer `n` is inserted at `a`. */
  ghost function PlaceOf(index: seq<nat>, a: nat, n: nat, c: nat): nat
    requires a <= |index| && c <= |index|
  {
    if c < a then index[c] else if c == a then n else index[c - 1]
  }

  lemma PlacesAreOrdered(layers: seq<VideoStream>, index: seq<nat>, a: nat, c: nat, d: nat)
    requires FitsAt(layers, index, a) && c < d <= |index|
    ensures PlaceOf(index, a, |layers| - 1, c) < |layers| && PlaceOf(index, a, |layers| - 1, d) < |layers|
    ensures Before(layers, PlaceOf(index, a, |layers| - 1, c), PlaceOf(index, a, |layers| - 1, d))
  {
    if d == a {
      EarlierStaysBefore(layers, index, a, c);
    } else if c == a {
      LaterIsAfter(layers, index, a, d - 1);
    } else {
      BeforeStays(layers, index, if c < a then c else c - 1, if d < a then d else d - 1);
    }
  }

  lemma InsertedPair(layers: seq<VideoStream>, index: seq<nat>, a: nat, c: nat, d: nat)
    requires FitsAt(layers, index, a) && c < d <= |index|
    ensures |Inserted(index, a, |layers| - 1)| == |index| + 1
    ensures Inserted(index, a, |layers| - 1)[c] < |layers| && Inserted(index, a, |layers| - 1)[d] < |layers|
    ensures Before(layers, Inserted(index, a, |layers| - 1)[c], Inserted(index, a, |layers| - 1)[d])
  {
    InsertedAt(index, a, |layers| - 1, c);
    InsertedAt(index, a, |layers| - 1, d);
    PlacesAreOrdered(layers, index, a, c, d);
  }

  lemma InsertedCovers(layers: seq<VideoStream>, index: seq<nat>, a: nat, i: nat)
    requires FitsAt(layers, index, a) && i < |layers|
    ensures i in Inserted(index, a, |layers| - 1)
  {
    InsertedAt(index, a, |layers| - 1, a);
    if i < |layers| - 1 {
      assert i in index;
      var b :| 0 <= b < |index| && index[b] == i;
      InsertedAt(index, a, |layers| - 1, if b < a then b else b + 1);
    }
  }

  lemma InsertKeepsOrder(layers: seq<VideoStream>, index: seq<nat>, a: nat)
    requires FitsAt(layers, index, a)
    ensures IsStableOrder(layers, Inserted(index, a, |layers| - 1))
  {
    var all := Inserted(index, a, |layers| - 1);
    forall c | 0 <= c < |all| ensures all[c] < |layers| {
      InsertedAt(index, a, |layers| - 1, c);
    }
    forall c, d | 0 <= c < d < |all| ensures Before(layers, all[c], all[d]) {
      InsertedPair(layers, index, a, c, d);
    }
    forall i: nat | i < |layers| ensures i in all {
      InsertedCovers(layers, index, a, i);
    }
  }

  /** First of the layers, or of the active layers, in the stable order. */
  ghost predicate IsFirst(layers: seq<VideoStream>, i: nat, onlyActive: bool) {
    && i < |layers| && (onlyActive ==> layers[i].active)
    && forall j: nat :: j < |layers| && j != i && (onlyActive ==> layers[j].active) ==> Before(layers, i, j)
  }

  ghost function FirstInOrder(layers: seq<VideoStream>, onlyActive: bool): (r: Option<nat>)
    ensures r.Some? ==> IsFirst(layers, r.value, onlyActive)
    ensures r.None? ==> forall i :: 0 <= i < |layers| ==> onlyActive && !layers[i].active
  {
    if layers == [] then None else
      var n: nat := |layers| - 1;
      var before := FirstInOrder(layers[..n], onlyActive);
      if onlyActive && !layers[n].active then before
      else if before.None? || layers[n].maxBitrateBps < layers[before.value].maxBitrateBps then Some(n)
      else before
  }

  /** The first active layer may go as low as the lowest layer, if that one is inactive. */
  ghost function Patched(layers: seq<VideoStream>): seq<VideoStream> {
    var low, first := FirstInOrder(layers, false), FirstInOrder(layers, true);
    if low.Some? && !layers[low.value].active && first.Some? then
      layers[first.value := layers[first.value].(minBitrateBps := layers[low.value].minBitrateBps)]
    else layers
  }

  method PatchFirstActive(layers: array<VideoStream>)
    requires layers.Length > 0
    modifies layers
    ensures layers[..] == Patched(old(layers[..]))
  {
    ghost var before := layers[..];
    var index := StableSortByMax(layers);
    OrderStartsWithFirst(before, index);
    if !layers[index[0]].active {
      var minConfigured := layers[index[0]].minBitrateBps;
      for i := 0 to layers.Length
        invariant layers[..] == before
        invariant forall a :: 0 <= a < i ==> !layers[index[a]].active
      {
        if layers[index[i]].active {
          FirstActiveInOrder(before, index, i);
          layers[index[i]] := layers[index[i]].(minBitrateBps := minConfigured);
          return;
        }
      }
      forall k: nat | k < |before| ensures !before[k].active {
        assert k in index;
      }
    }
  }

  lemma OrderStartsWithFirst(layers: seq<VideoStream>, index: seq<nat>)
    requires |layers| > 0 && IsStableOrder(layers, index)
    ensures FirstInOrder(layers, false) == Some(index[0])
  {
    var low := FirstInOrder(layers, false).value;
    assert low in index;
    var a :| 0 <= a < |index| && index[a] == low;
    assert a > 0 ==> Before(layers, index[0], index[a]);
  }

  lemma FirstActiveInOrder(layers: seq<VideoStream>, index: seq<nat>, i: nat)
    requires IsStableOrder(layers, index) && i < |index| && layers[index[i]].active
    requires forall a :: 0 <= a < i ==> !layers[index[a]].active
    ensures FirstInOrder(layers, true) == Some(index[i])
  {
    var first := FirstInOrder(layers, true).value;
    assert first in index;
    var a :| 0 <= a < |index| && index[a] == first;
    assert a <= i;
  }

  /* ---- the whole path ---- */

  datatype Environment = Environment(
    params: LayerParams,
    legacyLimit: bool,
    maxRatio: Option<real>,
    isScreenshare: bool,
    experimentalMin: Option<int>,
    codecHasTemporalLayers: bool)

  ghost function LayerCount(width: int, height: int, config: EncoderConfig, env: Environment): (n: nat)
    requires width >= 0 && height >= 0 && config.Valid()
  {
    LimitedLayerCount(width, height, RequiredActiveLayers(config), config.numberOfStreams,
      env.legacyLimit, env.maxRatio, env.params.lowres)
  }

  /** Layer `i` of the ladder, the lowest one with the experimental minimum. */
  ghost function RungOf(width: int, height: int, env: Environment, count: nat, i: nat): VideoStream
    requires width >= 0 && height >= 0 && i < count
  {
    var layer := NormalLayer(width, height, count, i, env.params);
    if i == 0 && env.experimentalMin.Some? then layer.(minBitrateBps := env.experimentalMin.value) else layer
  }

  /** The rungs there are, before the configuration is applied. */
  ghost function BaseLayer(width: int, height: int, config: EncoderConfig, env: Environment, i: nat): VideoStream
    requires width >= 0 && height >= 0 && config.Valid() && i < LayerCount(width, height, config, env)
  {
    RungOf(width, height, env, LayerCount(width, height, config, env), i)
  }

  /** A base layer after the configuration. */
  ghost function ConfiguredLayer(width: int, height: int, config: EncoderConfig, env: Environment, i: nat): VideoStream
    requires width >= 0 && height >= 0 && config.Valid()
    requires i < LayerCount(width, height, config, env) && i < |config.simulcastLayers|
  {
    var c := config.simulcastLayers[i];
    Configured(Shaped(BaseLayer(width, height, config, env, i), c, ShapeIn(width, height, config, env)), c)
  }

  ghost function ShapeIn(width: int, height: int, config: EncoderConfig, env: Environment): Shape
    requires width >= 0 && height >= 0 && config.Valid()
  {
    ShapeOf(width, height, config, env.params.sizeExperiment, env.codecHasTemporalLayers)
  }

  lemma CountBounds(width: int, height: int, config: EncoderConfig, env: Environment)
    requires width >= 0 && height >= 0 && config.Valid()
    ensures var n := LayerCount(width, height, config, env);
      1 <= n <= config.numberOfStreams && RequiredActiveLayers(config) <= n
  {
    PixelsNotNegative(width, height);
    InterpolatedLayersPositive(width, height, env.maxRatio, env.params.lowres);
    LimitBounds(Interpolated(width, height, env.maxRatio, env.params.lowres).maxLayers, RequiredActiveLayers(config),
      config.numberOfStreams);
  }

  lemma LimitBounds(allowed: nat, needed: nat, asked: nat)
    requires allowed >= 1 && needed <= asked && asked >= 1
    ensures 1 <= Min(asked, Max(needed, allowed)) <= asked && needed <= Min(asked, Max(needed, allowed))
  {
  }

  ghost function ConfiguredLayers(width: int, height: int, config: EncoderConfig, env: Environment): seq<VideoStream>
    requires width >= 0 && height >= 0 && config.Valid()
  {
    CountBounds(width, height, config, env);
    var n := LayerCount(width, height, config, env);
    seq(n, i requires 0 <= i < n => ConfiguredLayer(width, height, config, env, i))
  }

  ghost predicate Boosts(config: EncoderConfig, env: Environment, n: nat)
    requires 1 <= n <= |config.simulcastLayers|
  {
    !env.isScreenshare && config.simulcastLayers[n - 1].maxBitrateBps <= 0 && config.maxBitrateBps > 0
  }

  /** Configured and boosted, before the patch. */
  ghost function BoostedLayers(width: int, height: int, config: EncoderConfig, env: Environment): seq<VideoStream>
    requires width >= 0 && height >= 0 && config.Valid()
  {
    CountBounds(width, height, config, env);
    var layers := ConfiguredLayers(width, height, config, env);
    if Boosts(config, env, |layers|) then Boosted(layers, config.maxBitrateBps) else layers
  }

  ghost function EncoderStreams(width: int, height: int, config: EncoderConfig, env: Environment): seq<VideoStream>
    requires width >= 0 && height >= 0 && config.Valid()
  {
    Patched(BoostedLayers(width, height, config, env))
  }

  method CreateSimulcastStreams(width: int, height: int, config: EncoderConfig, env: Environment)
    returns (layers: array<VideoStream>)
    requires width >= 0 && height >= 0 && config.Valid()
    ensures fresh(layers) && layers[..] == EncoderStreams(width, height, config, env)
  {
    var boost;
    layers, boost := CreateConfiguredLayers(width, height, config, env);
    if boost {
      BoostMaxSimulcastLayer(config.maxBitrateBps, layers);
    }
    PatchFirstActive(layers);
  }

  /** Everything up to the boost, and whether there is one. */
  method CreateConfiguredLayers(width: int, height: int, config: EncoderConfig, env: Environment)
    returns (layers: array<VideoStream>, boost: bool)
    requires width >= 0 && height >= 0 && config.Valid()
    ensures fresh(layers) && 1 <= layers.Length <= |config.simulcastLayers|
    ensures layers[..] == ConfiguredLayers(width, height, config, env)
    ensures boost <==> Boosts(config, env, layers.Length)
  {
    layers := CreateBaseLayers(width, height, config, env);
    AreConfiguredLayers(width, height, config, env);
    var shape := FindShape(width, height, config, env.params.sizeExperiment, env.codecHasTemporalLayers);
    var highestConfigured := ConfigureLayers(layers, config, shape);
    boost := !env.isScreenshare && !highestConfigured && config.maxBitrateBps > 0;
  }

  ghost function BaseLayers(width: int, height: int, config: EncoderConfig, env: Environment): seq<VideoStream>
    requires width >= 0 && height >= 0 && config.Valid()
  {
    var n := LayerCount(width, height, config, env);
    seq(n, i requires 0 <= i < n => BaseLayer(width, height, config, env, i))
  }

  ghost function ConfiguredBy(layers: seq<VideoStream>, config: EncoderConfig, shape: Shape): seq<VideoStream>
    requires |layers| <= |config.simulcastLayers|
  {
    seq(|layers|, i requires 0 <= i < |layers| =>
      Configured(Shaped(layers[i], config.simulcastLayers[i], shape), config.simulcastLayers[i]))
  }

  lemma AreConfiguredLayers(width: int, height: int, config: EncoderConfig, env: Environment)
    requires width >= 0 && height >= 0 && config.Valid()
    ensures 1 <= |BaseLayers(width, height, config, env)| <= |config.simulcastLayers|
    ensures ConfiguredBy(BaseLayers(width, height, config, env), config, ShapeIn(width, height, config, env)) ==
              ConfiguredLayers(width, height, config, env)
  {
    CountBounds(width, height, config, env);
    var base, all := BaseLayers(width, height, config, env), ConfiguredLayers(width, height, config, env);
    var configured := ConfiguredBy(base, config, ShapeIn(width, height, config, env));
    forall i: nat | i < |all| ensures configured[i] == all[i] {
      assert all[i] == ConfiguredLayer(width, height, config, env, i);
    }
  }

  method CreateBaseLayers(width: int, height: int, config: EncoderConfig, env: Environment)
    returns (layers: array<VideoStream>)
    requires width >= 0 && height >= 0 && config.Valid()
    ensures fresh(layers) && 1 <= layers.Length <= config.numberOfStreams
    ensures layers[..] == BaseLayers(width, height, config, env)
  {
    CountBounds(width, height, config, env);
    var need := FindRequiredActiveLayers(config);
    var count := LimitSimulcastLayerCount(width, height, need, config.numberOfStreams,
      env.legacyLimit, env.maxRatio, env.params.lowres);
    layers := GetNormalSimulcastLayers(count, width, height, env.params);
    AreBaseLayers(width, height, config, env, layers[..]);
    if env.experimentalMin.Some? {
      layers[0] := layers[0].(minBitrateBps := env.experimentalMin.value);
    }
  }

  lemma AreBaseLayers(width: int, height: int, config: EncoderConfig, env: Environment, ladder: seq<VideoStream>)
    requires width >= 0 && height >= 0 && config.Valid() && |ladder| == LayerCount(width, height, config, env) >= 1
    requires forall i :: 0 <= i < |ladder| ==> ladder[i] == NormalLayer(width, height, |ladder|, i, env.params)
    ensures BaseLayers(width, height, config, env) ==
              if env.experimentalMin.Some? then ladder[0 := ladder[0].(minBitrateBps := env.experimentalMin.value)]
              else ladder
  {
    var base := BaseLayers(width, height, config, env);
    forall i: nat | i < |ladder|
      ensures base[i] == if i == 0 && env.experimentalMin.Some?
                         then ladder[0].(minBitrateBps := env.experimentalMin.value) else ladder[i]
    {
      assert base[i] == RungOf(width, height, env, |ladder|, i);
    }
  }

  method ConfigureLayers(layers: array<VideoStream>, config: EncoderConfig, shape: Shape)
    returns (highestConfigured: bool)
    requires 1 <= layers.Length <= |config.simulcastLayers|
    modifies layers
    ensures layers[..] == ConfiguredBy(old(layers[..]), config, shape)
    ensures highestConfigured <==> config.simulcastLayers[layers.Length - 1].maxBitrateBps > 0
  {
    highestConfigured := false;
    for i := 0 to layers.Length
      invariant forall k :: 0 <= k < i ==>
        layers[k] == Configured(Shaped(old(layers[k]), config.simulcastLayers[k], shape), config.simulcastLayers[k])
      invariant forall k :: i <= k < layers.Length ==> layers[k] == old(layers[k])
      invariant i == layers.Length ==> highestConfigured == (config.simulcastLayers[i - 1].maxBitrateBps > 0)
    {
      ConfigureLayer(layers, i, config.simulcastLayers[i], shape);
      if i == layers.Length - 1 {
        highestConfigured := config.simulcastLayers[i].maxBitrateBps > 0;
      }
    }
  }

  /* ---- what every output promises ---- */

  /** What a layer is beside its bitrates. */
  ghost function WithoutRates(layer: VideoStream): VideoStream {
    layer.(minBitrateBps := 0, targetBitrateBps := 0, maxBitrateBps := 0)
  }

  lemma BoostAndPatchKeepTheRest(layers: seq<VideoStream>, maxBitrate: int, i: nat)
    requires i < |layers|
    ensures |Boosted(layers, maxBitrate)| == |Patched(layers)| == |layers|
    ensures WithoutRates(Boosted(layers, maxBitrate)[i]) == WithoutRates(Patched(layers)[i]) == WithoutRates(layers[i])
  {
  }

  lemma ConfiguredKeepsTheRest(layer: VideoStream, c: LayerConfig)
    ensures WithoutRates(Configured(layer, c)) == WithoutRates(layer).(active := c.active)
  {
  }

  /** Only bitrates change after the loop over the layers. */
  lemma OutputKeepsTheRest(width: int, height: int, config: EncoderConfig, env: Environment, i: nat)
    requires width >= 0 && height >= 0 && config.Valid()
    requires i < LayerCount(width, height, config, env)
    ensures i < |config.simulcastLayers|
    ensures |EncoderStreams(width, height, config, env)| == LayerCount(width, height, config, env)
    ensures WithoutRates(EncoderStreams(width, height, config, env)[i]) ==
              WithoutRates(ConfiguredLayer(width, height, config, env, i))
  {
    CountBounds(width, height, config, env);
    var layers := ConfiguredLayers(width, height, config, env);
    BoostAndPatchKeepTheRest(layers, config.maxBitrateBps, i);
    BoostAndPatchKeepTheRest(BoostedLayers(width, height, config, env), config.maxBitrateBps, i);
  }

  /** Boost and patch leave every layer as active as its configuration made it. */
  lemma OutputActive(width: int, height: int, config: EncoderConfig, env: Environment, i: nat)
    requires width >= 0 && height >= 0 && config.Valid()
    requires i < LayerCount(width, height, config, env)
    ensures i < |config.simulcastLayers| && i < |EncoderStreams(width, height, config, env)|
    ensures EncoderStreams(width, height, config, env)[i].active == config.simulcastLayers[i].active
  {
    OutputKeepsTheRest(width, height, config, env, i);
    var c := config.simulcastLayers[i];
    var shaped := Shaped(BaseLayer(width, height, config, env, i), c, ShapeIn(width, height, config, env));
    ConfiguredKeepsTheRest(shaped, c);
  }

  /** `r` is the largest integer whose product with `scale` does not exceed `base`, or 16 where that is less. */
  ghost predicate IsScaledDown(r: int, base: int, scale: real) {
    r >= 16 && base as real < (r + 1) as real * scale && (r > 16 ==> r as real * scale <= base as real)
  }

  lemma ScaledSizeIsScaledDown(base: int, scale: real)
    requires base >= 0
    ensures IsScaledDown(ScaledSize(base, scale), base, MaxReal(scale, 1.0))
  {
    var d := MaxReal(scale, 1.0);
    var f := base as real / d;
    QuotientTimes(base as real, d);
    QuotientBetween(base as real, d, f, f.Floor as real, (f.Floor + 1) as real);
    RaisedIsScaledDown(f.Floor, base, d);
    assert ScaledSize(base, scale) == Max(f.Floor, 16);
  }

  lemma RaisedIsScaledDown(q: int, base: int, d: real)
    requires d > 0.0 && q as real * d <= base as real < (q + 1) as real * d
    ensures IsScaledDown(Max(q, 16), base, d)
  {
    if q < 16 {
      ProductsAreOrdered((q + 1) as real, 17.0, d);
      assert 17.0 == (16 + 1) as real;
    }
  }

  lemma QuotientBetween(x: real, d: real, f: real, low: real, high: real)
    requires d > 0.0 && f * d == x && low <= f < high
    ensures low * d <= x < high * d
  {
    ProductsAreOrdered(low, f, d);
    ProductsAreOrdered(f, high, d);
  }

  lemma ProductsAreOrdered(a: real, b: real, d: real)
    requires a <= b && d > 0.0
    ensures a * d <= b * d && (a < b ==> a * d < b * d)
  {
    SmallerShare(a, b, d);
  }

  /** The side the factors divide: a multiple of the power of the ladder asked for, unless some factor is no power of
      two and there is no experiment. */
  ghost predicate IsScalingBase(base: int, side: int, config: EncoderConfig, experiment: Option<nat>)
    requires config.Valid()
  {
    if experiment.Some? ||
       forall k :: 0 <= k < |config.simulcastLayers| ==>
         IsPowerScale(MaxReal(config.simulcastLayers[k].scaleResolutionDownBy, 1.0))
    then base == SideByDivision(side, config.numberOfStreams, config.numberOfStreams - 1, experiment)
    else base == side
  }

  lemma ScalingBaseIs(side: int, config: EncoderConfig, experiment: Option<nat>)
    requires side >= 0 && config.Valid() && HasScale(config.simulcastLayers)
    ensures IsScalingBase(ScalingBase(side, config, experiment), side, config, experiment)
  {
    LayerSizeIsQuotient(side, config.numberOfStreams, config.numberOfStreams - 1, experiment);
  }

  /** The size of an output layer. Without scale factors it is that of the ladder of as many layers as there are.
      Otherwise its width is the width of the picture divided by its own factor, and its height the height. */
  lemma OutputSize(width: int, height: int, config: EncoderConfig, env: Environment, i: nat)
    requires width >= 0 && height >= 0 && config.Valid()
    requires i < |EncoderStreams(width, height, config, env)|
    ensures i < |config.simulcastLayers|
    ensures var out, experiment := EncoderStreams(width, height, config, env), env.params.sizeExperiment;
      if forall k :: 0 <= k < |config.simulcastLayers| ==> config.simulcastLayers[k].scaleResolutionDownBy == -1.0 then
        && out[i].width == SideByDivision(width, |out|, i, experiment)
        && out[i].height == SideByDivision(height, |out|, i, experiment)
      else
        var scale := MaxReal(config.simulcastLayers[i].scaleResolutionDownBy, 1.0);
        exists w, h :: IsScalingBase(w, width, config, experiment) && IsScalingBase(h, height, config, experiment) &&
                       IsScaledDown(out[i].width, w, scale) && IsScaledDown(out[i].height, h, scale)
  {
    OutputKeepsTheRest(width, height, config, env, i);
    var c, experiment, n := config.simulcastLayers[i], env.params.sizeExperiment, LayerCount(width, height, config, env);
    var base := BaseLayer(width, height, config, env, i);
    ConfiguredKeepsTheRest(Shaped(base, c, ShapeIn(width, height, config, env)), c);
    if HasScale(config.simulcastLayers) {
      var w, h := ScalingBase(width, config, experiment), ScalingBase(height, config, experiment);
      ScalingBaseIs(width, config, experiment);
      ScalingBaseIs(height, config, experiment);
      ScaledSizeIsScaledDown(w, c.scaleResolutionDownBy);
      ScaledSizeIsScaledDown(h, c.scaleResolutionDownBy);
    } else {
      NormalLayerShape(width, height, n, i, env.params);
    }
  }

  /** The same configuration without scale factors. */
  ghost function Unscaled(config: EncoderConfig): (r: EncoderConfig)
    requires config.Valid()
    ensures r.Valid() && |r.simulcastLayers| == |config.simulcastLayers|
  {
    config.(simulcastLayers := seq(|config.simulcastLayers|, i requires 0 <= i < |config.simulcastLayers| =>
      config.simulcastLayers[i].(scaleResolutionDownBy := -1.0)))
  }

  lemma {:induction false} RequiredIgnoresScales(config: EncoderConfig, i: nat)
    requires config.Valid() && i <= config.numberOfStreams
    ensures RequiredFrom(Unscaled(config), i) == RequiredFrom(config, i)
    decreases config.numberOfStreams - i
  {
    if i < config.numberOfStreams {
      RequiredIgnoresScales(config, i + 1);
    }
  }

  /** Factors 2^(n - 1), ..., 2, 1 give output layer `i` the size it has in a full ladder, or 16 where that is less;
      so where no layer is cut off they change nothing but sizes below 16. */
  lemma DefaultScalesKeepOutputSizes(width: int, height: int, config: EncoderConfig, env: Environment, i: nat)
    requires width >= 0 && height >= 0 && config.Valid() && |config.simulcastLayers| == config.numberOfStreams
    requires forall k :: 0 <= k < config.numberOfStreams ==>
               config.simulcastLayers[k].scaleResolutionDownBy == Pow2(config.numberOfStreams - 1 - k) as real
    requires i < |EncoderStreams(width, height, config, env)|
    ensures var out, n := EncoderStreams(width, height, config, env), config.numberOfStreams;
      && out[i].width == Max(16, SideByDivision(width, n, i, env.params.sizeExperiment))
      && out[i].height == Max(16, SideByDivision(height, n, i, env.params.sizeExperiment))
    ensures var out, plain := EncoderStreams(width, height, config, env), EncoderStreams(width, height, Unscaled(config), env);
      |out| == |plain| &&
      (|out| == config.numberOfStreams ==>
        out[i].width == Max(16, plain[i].width) && out[i].height == Max(16, plain[i].height))
  {
    OutputKeepsTheRest(width, height, config, env, i);
    var c, n, experiment := config.simulcastLayers[i], config.numberOfStreams, env.params.sizeExperiment;
    ConfiguredKeepsTheRest(Shaped(BaseLayer(width, height, config, env, i), c, ShapeIn(width, height, config, env)), c);
    DefaultScalesChangeNothing(width, config, experiment, i);
    DefaultScalesChangeNothing(height, config, experiment, i);
    LayerSizeIsQuotient(width, n, i, experiment);
    LayerSizeIsQuotient(height, n, i, experiment);
    assert c.scaleResolutionDownBy > 0.0;
    RequiredIgnoresScales(config, 0);
    OutputKeepsTheRest(width, height, Unscaled(config), env, i);
    OutputSize(width, height, Unscaled(config), env, i);
  }

  /** Frame rate and temporal layers of an output layer: the configured ones, where there are any and the codec has
      temporal layers at all, otherwise those of the ladder. */
  lemma OutputRateAndTemporalLayers(width: int, height: int, config: EncoderConfig, env: Environment, i: nat)
    requires width >= 0 && height >= 0 && config.Valid()
    requires i < |EncoderStreams(width, height, config, env)|
    ensures i < |config.simulcastLayers|
    ensures var out, c, p := EncoderStreams(width, height, config, env)[i], config.simulcastLayers[i], env.params;
      && out.maxFramerate == (if c.maxFramerate > 0 then c.maxFramerate else p.maxFramerate)
      && out.numTemporalLayers == (if env.codecHasTemporalLayers && c.numTemporalLayers.Some? then c.numTemporalLayers.value
                                   else if p.temporalLayersSupported then p.temporalLayers(i) else 1)
      && out.maxQp == p.maxQp && out.bitratePriority == (if i == 0 then Some(p.bitratePriority) else None)
  {
    OutputKeepsTheRest(width, height, config, env, i);
    var c := config.simulcastLayers[i];
    var base := BaseLayer(width, height, config, env, i);
    ConfiguredKeepsTheRest(Shaped(base, c, ShapeIn(width, height, config, env)), c);
    NormalLayerShape(width, height, LayerCount(width, height, config, env), i, env.params);
  }

  /** The layer behind the first active configured one survives the limit, so something is active. */
  lemma SomeLayerIsActive(width: int, height: int, config: EncoderConfig, env: Environment)
    requires width >= 0 && height >= 0 && config.Valid()
    requires exists k :: 0 <= k < config.numberOfStreams && config.simulcastLayers[k].active
    ensures exists i :: 0 <= i < |EncoderStreams(width, height, config, env)| &&
                        EncoderStreams(width, height, config, env)[i].active
  {
    CountBounds(width, height, config, env);
    var i := RequiredActiveLayers(config) - 1;
    OutputActive(width, height, config, env, i);
    var out := EncoderStreams(width, height, config, env);
    assert 0 <= i < |out| && out[i].active;
  }

  ghost predicate AllOrdered(layers: seq<VideoStream>) {
    forall i :: 0 <= i < |layers| ==> Ordered(layers[i])
  }

  /** Every layer's configuration fits the layer it is applied to. */
  ghost predicate AllConfigsFit(width: int, height: int, config: EncoderConfig, env: Environment)
    requires width >= 0 && height >= 0 && config.Valid()
  {
    forall i :: 0 <= i < LayerCount(width, height, config, env) && i < |config.simulcastLayers| ==>
      ConfigFits(NormalLayer(width, height, LayerCount(width, height, config, env), i, env.params),
                 config.simulcastLayers[i])
  }

  lemma ShapeKeepsRates(layer: VideoStream, c: LayerConfig, shape: Shape)
    ensures Ordered(Shaped(layer, c, shape)) <==> Ordered(layer)
    ensures ConfigFits(Shaped(layer, c, shape), c) <==> ConfigFits(layer, c)
    ensures Shaped(layer, c, shape).maxBitrateBps == layer.maxBitrateBps
  {
  }

  lemma ConfiguredLayersAreOrdered(width: int, height: int, config: EncoderConfig, env: Environment)
    requires width >= 0 && height >= 0 && config.Valid() && env.experimentalMin.None? && 0.0 <= env.params.rateFactor
    requires AllConfigsFit(width, height, config, env)
    ensures AllOrdered(ConfiguredLayers(width, height, config, env))
  {
    CountBounds(width, height, config, env);
    var n := LayerCount(width, height, config, env);
    forall i: nat | i < n ensures Ordered(ConfiguredLayers(width, height, config, env)[i]) {
      NormalLayerIsOrdered(width, height, n, i, env.params);
      var base, c := NormalLayer(width, height, n, i, env.params), config.simulcastLayers[i];
      var shaped := Shaped(base, c, ShapeIn(width, height, config, env));
      ShapeKeepsRates(base, c, ShapeIn(width, height, config, env));
      FixUpOrdersExactly(shaped, c);
      assert ConfiguredLayers(width, height, config, env)[i] == Configured(shaped, c);
    }
  }

  lemma BoostKeepsOrdered(layers: seq<VideoStream>, maxBitrate: int)
    requires AllOrdered(layers)
    ensures AllOrdered(Boosted(layers, maxBitrate))
  {
  }

  /** The patch gives the minimum of the lowest layer, if that is not active, to the lowest active one, and changes
      nothing else. */
  lemma PatchedExactly(layers: seq<VideoStream>, low: nat, first: nat)
    requires IsFirst(layers, low, false)
    ensures layers[low].active ==> Patched(layers) == layers
    ensures (forall k :: 0 <= k < |layers| ==> !layers[k].active) ==> Patched(layers) == layers
    ensures !layers[low].active && IsFirst(layers, first, true) ==>
              Patched(layers) == layers[first := layers[first].(minBitrateBps := layers[low].minBitrateBps)]
  {
    assert FirstInOrder(layers, false) == Some(low);
    if IsFirst(layers, first, true) {
      assert FirstInOrder(layers, true) == Some(first);
    }
  }

  lemma {:induction false} SameTargetsSameSum(a: seq<VideoStream>, b: seq<VideoStream>)
    requires |a| == |b| && forall k :: 0 <= k < |a| ==> a[k].targetBitrateBps == b[k].targetBitrateBps
    ensures TargetSum(a) == TargetSum(b)
  {
    if a != [] {
      SameTargetsSameSum(a[..|a| - 1], b[..|b| - 1]);
    }
  }

  lemma PatchKeepsTargetAndMax(layers: seq<VideoStream>)
    ensures |Patched(layers)| == |layers| && TotalMax(Patched(layers)) == TotalMax(layers)
    ensures forall k :: 0 <= k < |layers| ==>
              && Patched(layers)[k].targetBitrateBps == layers[k].targetBitrateBps
              && Patched(layers)[k].maxBitrateBps == layers[k].maxBitrateBps
  {
    if layers != [] {
      SameTargetsSameSum(Patched(layers)[..|layers| - 1], layers[..|layers| - 1]);
    }
  }

  /** There are as many output layers as the limit allows. */
  lemma OutputCount(width: int, height: int, config: EncoderConfig, env: Environment)
    requires width >= 0 && height >= 0 && config.Valid()
    ensures IsLargestAllowed(|EncoderStreams(width, height, config, env)|, width, height, RequiredActiveLayers(config),
              config.numberOfStreams, env.legacyLimit, env.maxRatio, env.params.lowres)
  {
    var out := FinishedLayers(width, height, config, env);
    LimitIsLargestAllowed(width, height, RequiredActiveLayers(config), config.numberOfStreams,
      env.legacyLimit, env.maxRatio, env.params.lowres);
  }

  /** The target of an output layer is what its own configuration makes of its own rung. */
  lemma OutputTarget(width: int, height: int, config: EncoderConfig, env: Environment, i: nat)
    requires width >= 0 && height >= 0 && config.Valid()
    requires i < |EncoderStreams(width, height, config, env)|
    ensures var out := EncoderStreams(width, height, config, env);
      && |out| <= |config.simulcastLayers|
      && out[i].targetBitrateBps ==
           Configured(RungOf(width, height, env, |out|, i), config.simulcastLayers[i]).targetBitrateBps
  {
    var out := FinishedLayers(width, height, config, env);
    ConfiguredRatesIgnoreShape(width, height, config, env, i);
    FinishedTargetAndMax(ConfiguredLayers(width, height, config, env), Boosts(config, env, |out|), config.maxBitrateBps,
      out, i);
  }

  /** So is the maximum, except in the highest layer where that takes what the others leave of a limit. */
  lemma OutputMax(width: int, height: int, config: EncoderConfig, env: Environment, i: nat)
    requires width >= 0 && height >= 0 && config.Valid()
    requires var n := |EncoderStreams(width, height, config, env)|;
      && i < n <= |config.simulcastLayers|
      && (i + 1 < n || env.isScreenshare || config.maxBitrateBps <= 0 || config.simulcastLayers[i].maxBitrateBps > 0)
    ensures var out := EncoderStreams(width, height, config, env);
      out[i].maxBitrateBps == Configured(RungOf(width, height, env, |out|, i), config.simulcastLayers[i]).maxBitrateBps
  {
    FinishedMax(width, height, config, env, i);
    ConfiguredRatesIgnoreShape(width, height, config, env, i);
  }

  lemma FinishedMax(width: int, height: int, config: EncoderConfig, env: Environment, i: nat)
    requires width >= 0 && height >= 0 && config.Valid()
    requires var n := |EncoderStreams(width, height, config, env)|;
      && i < n <= |config.simulcastLayers|
      && (i + 1 < n || !Boosts(config, env, n))
    ensures var out, layers := EncoderStreams(width, height, config, env), ConfiguredLayers(width, height, config, env);
      |layers| == |out| && out[i].maxBitrateBps == layers[i].maxBitrateBps
  {
    var out := FinishedLayers(width, height, config, env);
    FinishedTargetAndMax(ConfiguredLayers(width, height, config, env), Boosts(config, env, |out|), config.maxBitrateBps,
      out, i);
  }

  /** A limit of the encoder is spent, unless the configured layers use more already: where the highest layer has no
      maximum of its own, in a picture that is no screen share. */
  lemma OutputSpendsTheLimit(width: int, height: int, config: EncoderConfig, env: Environment)
    requires width >= 0 && height >= 0 && config.Valid() && !env.isScreenshare && config.maxBitrateBps > 0
    requires var n := |EncoderStreams(width, height, config, env)|;
      0 < n <= |config.simulcastLayers| ==> config.simulcastLayers[n - 1].maxBitrateBps <= 0
    ensures TotalMax(EncoderStreams(width, height, config, env)) ==
              Max(TotalMax(ConfiguredLayers(width, height, config, env)), config.maxBitrateBps)
  {
    var out := FinishedLayers(width, height, config, env);
    var layers := ConfiguredLayers(width, height, config, env);
    PatchKeepsTargetAndMax(Boosted(layers, config.maxBitrateBps));
    BoostSpendsTheLimit(layers, config.maxBitrateBps);
  }

  lemma FinishedLayers(width: int, height: int, config: EncoderConfig, env: Environment) returns (out: seq<VideoStream>)
    requires width >= 0 && height >= 0 && config.Valid()
    ensures out == EncoderStreams(width, height, config, env)
    ensures var layers := ConfiguredLayers(width, height, config, env);
      && 1 <= |layers| == |out| <= |config.simulcastLayers|
      && out == Patched(if Boosts(config, env, |out|) then Boosted(layers, config.maxBitrateBps) else layers)
  {
    CountBounds(width, height, config, env);
    out := EncoderStreams(width, height, config, env);
    PatchKeepsTargetAndMax(BoostedLayers(width, height, config, env));
  }

  lemma FinishedTargetAndMax(layers: seq<VideoStream>, boosts: bool, limit: int, out: seq<VideoStream>, i: nat)
    requires i < |layers| && out == Patched(if boosts then Boosted(layers, limit) else layers)
    ensures |out| == |layers| && out[i].targetBitrateBps == layers[i].targetBitrateBps
    ensures i + 1 < |out| || !boosts ==> out[i].maxBitrateBps == layers[i].maxBitrateBps
  {
    BoostLeavesTheRest(layers, limit, i);
    PatchKeepsTargetAndMax(if boosts then Boosted(layers, limit) else layers);
  }

  lemma BoostLeavesTheRest(layers: seq<VideoStream>, maxBitrate: int, i: nat)
    requires i < |layers|
    ensures var boosted := Boosted(layers, maxBitrate);
      && |boosted| == |layers|
      && (forall k :: 0 <= k < |layers| ==> boosted[k].targetBitrateBps == layers[k].targetBitrateBps)
      && boosted[i].minBitrateBps == layers[i].minBitrateBps
      && (i + 1 < |layers| ==> boosted[i].maxBitrateBps == layers[i].maxBitrateBps)
  {
  }

  lemma ShapeKeepsConfiguredRates(layer: VideoStream, c: LayerConfig, shape: Shape)
    ensures var own, shaped := Configured(layer, c), Configured(Shaped(layer, c, shape), c);
      && shaped.minBitrateBps == own.minBitrateBps && shaped.targetBitrateBps == own.targetBitrateBps
      && shaped.maxBitrateBps == own.maxBitrateBps
  {
  }

  lemma ConfiguredRatesIgnoreShape(width: int, height: int, config: EncoderConfig, env: Environment, i: nat)
    requires width >= 0 && height >= 0 && config.Valid()
    requires i < |ConfiguredLayers(width, height, config, env)|
    ensures i < |config.simulcastLayers|
    ensures var layers := ConfiguredLayers(width, height, config, env);
            var own := Configured(RungOf(width, height, env, |layers|, i), config.simulcastLayers[i]);
      && layers[i].minBitrateBps == own.minBitrateBps && layers[i].targetBitrateBps == own.targetBitrateBps
      && layers[i].maxBitrateBps == own.maxBitrateBps
  {
    CountBounds(width, height, config, env);
    assert ConfiguredLayers(width, height, config, env)[i] == ConfiguredLayer(width, height, config, env, i);
    ShapeKeepsConfiguredRates(BaseLayer(width, height, config, env, i), config.simulcastLayers[i],
      ShapeIn(width, height, config, env));
  }

  /** And the minimum: its own, save that the lowest active layer takes that of the lowest layer. */
  lemma OutputMin(width: int, height: int, config: EncoderConfig, env: Environment, i: nat, low: nat, first: nat)
    requires width >= 0 && height >= 0 && config.Valid()
    requires i < |EncoderStreams(width, height, config, env)|
    requires IsFirst(EncoderStreams(width, height, config, env), low, false)
    requires IsFirst(EncoderStreams(width, height, config, env), first, true)
    ensures var out := EncoderStreams(width, height, config, env);
      && |out| <= |config.simulcastLayers|
      && var from := if i == first then low else i;
         out[i].minBitrateBps == Configured(RungOf(width, height, env, |out|, from), config.simulcastLayers[from]).minBitrateBps
  {
    CountBounds(width, height, config, env);
    var layers, boosted := ConfiguredLayers(width, height, config, env), BoostedLayers(width, height, config, env);
    var from := if i == first then low else i;
    PatchedMin(boosted, i, low, first);
    BoostLeavesTheRest(layers, config.maxBitrateBps, from);
    ConfiguredRatesIgnoreShape(width, height, config, env, from);
  }

  lemma PatchedMin(layers: seq<VideoStream>, i: nat, low: nat, first: nat)
    requires i < |layers| == |Patched(layers)|
    requires IsFirst(Patched(layers), low, false) && IsFirst(Patched(layers), first, true)
    ensures low < |layers| && Patched(layers)[i].minBitrateBps == layers[if i == first then low else i].minBitrateBps
  {
    PatchKeepsTargetAndMax(layers);
    forall k: nat | k < |layers| ensures Patched(layers)[k].active == layers[k].active {
      BoostAndPatchKeepTheRest(layers, 0, k);
    }
    SameOrder(Patched(layers), layers, low, false);
    SameOrder(Patched(layers), layers, first, true);
    PatchedExactly(layers, low, first);
  }

  lemma SameOrder(a: seq<VideoStream>, b: seq<VideoStream>, i: nat, onlyActive: bool)
    requires |a| == |b| && IsFirst(a, i, onlyActive)
    requires forall k :: 0 <= k < |a| ==> a[k].maxBitrateBps == b[k].maxBitrateBps && a[k].active == b[k].active
    ensures IsFirst(b, i, onlyActive)
  {
    forall j: nat | j < |b| && j != i && (onlyActive ==> b[j].active) ensures Before(b, i, j) {
      assert Before(a, i, j);
    }
  }

  /** Nobody inherits a minimum above its own target: the lowest layer is active, or no layer is, or its minimum
      does not exceed the target of the first active one. */
  ghost predicate HeirCanPay(layers: seq<VideoStream>) {
    var low, first := FirstInOrder(layers, false), FirstInOrder(layers, true);
    low.Some? && first.Some? && !layers[low.value].active ==>
      layers[low.value].minBitrateBps <= layers[first.value].targetBitrateBps
  }

  /** The patch keeps min <= max and target <= max everywhere; min <= target survives exactly when the heir of
      the lowest layer's minimum can pay for it. */
  lemma PatchKeepsMinBelowMax(layers: seq<VideoStream>)
    requires AllOrdered(layers)
    ensures forall i :: 0 <= i < |layers| ==>
              Patched(layers)[i].minBitrateBps <= Patched(layers)[i].maxBitrateBps &&
              Patched(layers)[i].targetBitrateBps <= Patched(layers)[i].maxBitrateBps
    ensures AllOrdered(Patched(layers)) <==> HeirCanPay(layers)
  {
    var low, first := FirstInOrder(layers, false), FirstInOrder(layers, true);
    if low.Some? && first.Some? && !layers[low.value].active {
      assert Before(layers, low.value, first.value);
      assert Ordered(layers[low.value]) && Ordered(layers[first.value]);
      assert Patched(layers)[first.value].minBitrateBps == layers[low.value].minBitrateBps;
    }
  }

  /** End to end: with every layer's configuration fitting, no output layer has min or target above max, and
      min <= target <= max holds in all of them exactly when the heir can pay. */
  lemma OutputIsOrderedExactly(width: int, height: int, config: EncoderConfig, env: Environment)
    requires width >= 0 && height >= 0 && config.Valid() && env.experimentalMin.None? && 0.0 <= env.params.rateFactor
    requires AllConfigsFit(width, height, config, env)
    ensures var out := EncoderStreams(width, height, config, env);
      forall i :: 0 <= i < |out| ==>
        out[i].minBitrateBps <= out[i].maxBitrateBps && out[i].targetBitrateBps <= out[i].maxBitrateBps
    ensures AllOrdered(EncoderStreams(width, height, config, env)) <==>
              HeirCanPay(BoostedLayers(width, height, config, env))
  {
    CountBounds(width, height, config, env);
    ConfiguredLayersAreOrdered(width, height, config, env);
    BoostKeepsOrdered(ConfiguredLayers(width, height, config, env), config.maxBitrateBps);
    PatchKeepsMinBelowMax(BoostedLayers(width, height, config, env));
  }

  /** So the check of the parameters is enough: the result of every checked configuration without explicit
      targets has neither min nor target above max, whatever the picture. */
  lemma CheckedOutputIsOrderedExactly(width: int, height: int, config: EncoderConfig, env: Environment)
    requires width >= 0 && height >= 0 && config.Valid() && env.experimentalMin.None? && 0.0 <= env.params.rateFactor
    requires forall i :: 0 <= i < config.numberOfStreams ==> IsChecked(config.simulcastLayers[i])
    ensures var out := EncoderStreams(width, height, config, env);
      forall i :: 0 <= i < |out| ==>
        out[i].minBitrateBps <= out[i].maxBitrateBps && out[i].targetBitrateBps <= out[i].maxBitrateBps
    ensures AllOrdered(EncoderStreams(width, height, config, env)) <==>
              HeirCanPay(BoostedLayers(width, height, config, env))
  {
    CountBounds(width, height, config, env);
    var n := LayerCount(width, height, config, env);
    forall i: nat | i < n
      ensures ConfigFits(NormalLayer(width, height, n, i, env.params), config.simulcastLayers[i])
    {
      NormalLayerIsOrdered(width, height, n, i, env.params);
      NoTargetFits(NormalLayer(width, height, n, i, env.params), config.simulcastLayers[i]);
    }
    OutputIsOrderedExactly(width, height, config, env);
  }

  /** Layer 0 inactive with 500 to 510, layer 1 active with 100 to 600: the output has a minimum of 500 over a
      target of 450, for every picture and every setting. */
  lemma PatchCanPassTarget(width: int, height: int, env: Environment)
    requires width >= 0 && height >= 0
    ensures var config := EncoderConfig(2, [LayerConfig(false, 500, 0, 510, 0, None, -1.0),
                                            LayerConfig(true, 100, 0, 600, 0, None, -1.0)], 0);
      var out := EncoderStreams(width, height, config, env);
      |out| == 2 && out[1].minBitrateBps == 500 && out[1].targetBitrateBps == 450
  {
    var low, high := LayerConfig(false, 500, 0, 510, 0, None, -1.0), LayerConfig(true, 100, 0, 600, 0, None, -1.0);
    var config := EncoderConfig(2, [low, high], 0);
    FirstActiveIs(config, 0, 1);
    CountBounds(width, height, config, env);
    var layers := BoostedLayers(width, height, config, env);
    assert layers == ConfiguredLayers(width, height, config, env) && |layers| == 2;
    FixedRates(width, height, config, env, 0);
    FixedRates(width, height, config, env, 1);
    TwoLayersPatched(layers);
  }

  /** With min and max configured the bitrates do not depend on the picture. */
  lemma FixedRates(width: int, height: int, config: EncoderConfig, env: Environment, i: nat)
    requires width >= 0 && height >= 0 && config.Valid()
    requires i < LayerCount(width, height, config, env) && i < |config.simulcastLayers|
    requires 0 < config.simulcastLayers[i].minBitrateBps && 0 < config.simulcastLayers[i].maxBitrateBps
    requires config.simulcastLayers[i].targetBitrateBps <= 0
    ensures var c, out := config.simulcastLayers[i], ConfiguredLayer(width, height, config, env, i);
      && out.active == c.active && out.minBitrateBps == c.minBitrateBps && out.maxBitrateBps == c.maxBitrateBps
      && out.targetBitrateBps == if c.maxBitrateBps * 3 / 4 < c.minBitrateBps then c.maxBitrateBps else c.maxBitrateBps * 3 / 4
  {
  }

  lemma TwoLayersPatched(layers: seq<VideoStream>)
    requires |layers| == 2 && !layers[0].active && layers[1].active && layers[0].maxBitrateBps < layers[1].maxBitrateBps
    ensures Patched(layers) == [layers[0], layers[1].(minBitrateBps := layers[0].minBitrateBps)]
  {
    var one := layers[..1];
    assert one[..0] == [];
    assert FirstInOrder(one, false) == Some(0) && FirstInOrder(one, true) == None;
    assert FirstInOrder(layers, false) == Some(0) && FirstInOrder(layers, true) == Some(1);
  }
}
