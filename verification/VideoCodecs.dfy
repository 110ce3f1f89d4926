/** Payload types for the supported formats, and what MapCodecs makes of a list of codecs. */
module VideoCodecs {
  import opened Wrappers

  /** A codec name up to ASCII case, as EqualsIgnoreCase compares it. */
  datatype CodecName = NameRed | NameUlpfec | NameFlexfec | NameRtx | NameAv1 | NameAv1x | OtherName(text: string)

  datatype CodecType = CodecVideo | CodecRed | CodecUlpfec | CodecFlexfec | CodecRtx

  /** A format or codec; `apt` and `rtxTime` are its parameters of these names that parse as integers. */
  datatype SdpVideoFormat = SdpVideoFormat(name: CodecName, apt: Option<int>, rtxTime: Option<int>)

  datatype VideoCodec = VideoCodec(id: int, name: CodecName, apt: Option<int>, rtxTime: Option<int>) {
    function GetCodecType(): CodecType {
      match name
      case NameRed => CodecRed
      case NameUlpfec => CodecUlpfec
      case NameFlexfec => CodecFlexfec
      case NameRtx => CodecRtx
      case _ => CodecVideo
    }
  }

  function CreateRtxCodec(id: int, associated: int): VideoCodec {
    VideoCodec(id, NameRtx, Some(associated), None)
  }

  const FIRST_LOWER := 35
  const LAST_LOWER := 63
  const FIRST_UPPER := 96
  const LAST_UPPER := 127
  const NACK_HISTORY_MS := 1000

  predicate IsCodecValidForLowerRange(name: CodecName) {
    name == NameFlexfec || name == NameAv1 || name == NameAv1x
  }

  predicate IsFecCodec(name: CodecName) {
    name == NameUlpfec || name == NameFlexfec
  }

  /* ---- payload type allocation ---- */

  /** Whether a codec of this name gets its payload type from the low range. */
  ghost predicate TakesLower(name: CodecName, upper: int) {
    IsCodecValidForLowerRange(name) || upper >= LAST_UPPER
  }

  /** The two counters after one payload type is taken for it. */
  ghost function NextUpper(name: CodecName, upper: int): int {
    if TakesLower(name, upper) then upper else upper + 1
  }

  ghost function NextLower(name: CodecName, upper: int, lower: int): int {
    if TakesLower(name, upper) then lower + 1 else lower
  }

  ghost function TakenId(name: CodecName, upper: int, lower: int): int {
    if TakesLower(name, upper) then lower else upper
  }

  /** The codecs the allocator appends for the remaining formats. */
  ghost function Allocate(formats: seq<SdpVideoFormat>, upper: int, lower: int): seq<VideoCodec> {
    if formats == [] || lower > LAST_LOWER then [] else
      var f := formats[0];
      var codec := VideoCodec(TakenId(f.name, upper, lower), f.name, f.apt, f.rtxTime);
      var upper1, lower1 := NextUpper(f.name, upper), NextLower(f.name, upper, lower);
      if IsFecCodec(f.name) then [codec] + Allocate(formats[1..], upper1, lower1)
      else if lower1 > LAST_LOWER then [codec]
      else [codec, CreateRtxCodec(TakenId(f.name, upper1, lower1), codec.id)] +
           Allocate(formats[1..], NextUpper(f.name, upper1), NextLower(f.name, upper1, lower1))
  }

  ghost function Advertised(supported: seq<SdpVideoFormat>): seq<SdpVideoFormat> {
    supported + [SdpVideoFormat(NameRed, None, None), SdpVideoFormat(NameUlpfec, None, None)]
  }

  /** A null factory is None. */
  method GetPayloadTypesAndDefaultCodecs(factory: Option<seq<SdpVideoFormat>>) returns (output: seq<VideoCodec>)
    ensures output == if factory.None? || factory.value == [] then []
                      else Allocate(Advertised(factory.value), FIRST_UPPER, FIRST_LOWER)
  {
    if factory.None? {
      return [];
    }
    var supported := factory.value;
    if supported == [] {
      return [];
    }
    supported := supported + [SdpVideoFormat(NameRed, None, None)];
    supported := supported + [SdpVideoFormat(NameUlpfec, None, None)];
    assert supported == Advertised(factory.value);
    var upper, lower := FIRST_UPPER, FIRST_LOWER;
    output := [];
    for i := 0 to |supported|
      invariant output + Allocate(supported[i..], upper, lower) == Allocate(supported, FIRST_UPPER, FIRST_LOWER)
    {
      ghost var before, rest := output, Allocate(supported[i..], upper, lower);
      assert supported[i..][0] == supported[i] && supported[i..][1..] == supported[i + 1..];
      var format := supported[i];
      var codec := VideoCodec(0, format.name, format.apt, format.rtxTime);
      if lower > LAST_LOWER {
        return;
      }
      var id;
      id, upper, lower := TakePayloadType(codec.name, upper, lower);
      codec := codec.(id := id);
      output := output + [codec];
      if !IsFecCodec(codec.name) {
        if lower > LAST_LOWER {
          return;
        }
        var rtxId;
        rtxId, upper, lower := TakePayloadType(codec.name, upper, lower);
        output := output + [CreateRtxCodec(rtxId, codec.id)];
        assert output == before + [codec, CreateRtxCodec(rtxId, codec.id)];
      }
      Reassociate(before, output[|before|..], Allocate(supported[i + 1..], upper, lower));
    }
  }

  lemma Reassociate<T>(a: seq<T>, b: seq<T>, c: seq<T>)
    ensures (a + b) + c == a + (b + c)
  {
  }

  /** Takes the least free payload type of the range the codec gets, and no other. */
  method TakePayloadType(name: CodecName, upper: int, lower: int) returns (id: int, upper': int, lower': int)
    ensures id == TakenId(name, upper, lower)
    ensures upper' == NextUpper(name, upper) && lower' == NextLower(name, upper, lower)
    ensures FIRST_UPPER <= upper && lower <= LAST_LOWER ==>
              && Available(id, upper, lower)
              && (forall x :: Available(x, upper', lower') <==> Available(x, upper, lower) && x != id)
              && (forall x :: Available(x, upper, lower) && (x <= LAST_LOWER <==> id <= LAST_LOWER) ==> id <= x)
              && (id <= LAST_LOWER <==> IsCodecValidForLowerRange(name) || upper >= LAST_UPPER)
  {
    if IsCodecValidForLowerRange(name) || upper >= LAST_UPPER {
      id, upper', lower' := lower, upper, lower + 1;
    } else {
      id, upper', lower' := upper, upper + 1, lower;
    }
  }

  ghost predicate UniqueIds(codecs: seq<VideoCodec>) {
    forall i, j :: 0 <= i < j < |codecs| ==> codecs[i].id != codecs[j].id
  }

  /** A payload type neither counter has passed yet. */
  ghost predicate Available(id: int, upper: int, lower: int) {
    upper <= id < LAST_UPPER || lower <= id <= LAST_LOWER
  }

  ghost predicate NoneNamedRtx(formats: seq<SdpVideoFormat>) {
    forall i :: 0 <= i < |formats| ==> formats[i].name != NameRtx
  }

  /** Every id is distinct and in [35,63] or [96,126]. */
  lemma {:induction false} AllocatedIdsAreDistinct(formats: seq<SdpVideoFormat>, upper: int, lower: int)
    requires FIRST_UPPER <= upper <= LAST_UPPER && FIRST_LOWER <= lower
    ensures UniqueIds(Allocate(formats, upper, lower))
    ensures forall i :: 0 <= i < |Allocate(formats, upper, lower)| ==>
              Available(Allocate(formats, upper, lower)[i].id, upper, lower)
  {
    if formats != [] && lower <= LAST_LOWER {
      var name := formats[0].name;
      var upper1, lower1 := NextUpper(name, upper), NextLower(name, upper, lower);
      if IsFecCodec(name) {
        AllocatedIdsAreDistinct(formats[1..], upper1, lower1);
      } else if lower1 <= LAST_LOWER {
        AllocatedIdsAreDistinct(formats[1..], NextUpper(name, upper1), NextLower(name, upper1, lower1));
      }
    }
  }

  /** An RTX codec sits right behind the codec it retransmits; only the last codec may lack its own. */
  ghost predicate Paired(codecs: seq<VideoCodec>) {
    && (forall i :: 0 <= i < |codecs| && codecs[i].name == NameRtx ==>
         i > 0 && codecs[i].apt == Some(codecs[i - 1].id) && codecs[i].rtxTime == None &&
         codecs[i - 1].GetCodecType() in {CodecVideo, CodecRed})
    && (forall i :: 0 <= i < |codecs| - 1 && codecs[i].GetCodecType() in {CodecVideo, CodecRed} ==>
         codecs[i + 1].name == NameRtx)
  }

  lemma PairedAfterFec(codec: VideoCodec, rest: seq<VideoCodec>)
    requires IsFecCodec(codec.name) && Paired(rest)
    ensures Paired([codec] + rest)
  {
    var all := [codec] + rest;
    assert forall i :: 1 <= i < |all| ==> all[i] == rest[i - 1];
  }

  lemma PairedAfterRtx(codec: VideoCodec, rtxId: int, rest: seq<VideoCodec>)
    requires !IsFecCodec(codec.name) && codec.name != NameRtx && Paired(rest)
    ensures Paired([codec, CreateRtxCodec(rtxId, codec.id)] + rest)
  {
    var all := [codec, CreateRtxCodec(rtxId, codec.id)] + rest;
    assert forall i :: 2 <= i < |all| ==> all[i] == rest[i - 2];
  }

  lemma {:induction false} AllocatedCodecsArePaired(formats: seq<SdpVideoFormat>, upper: int, lower: int)
    requires NoneNamedRtx(formats)
    ensures Paired(Allocate(formats, upper, lower))
  {
    if formats != [] && lower <= LAST_LOWER {
      var name := formats[0].name;
      assert name != NameRtx;
      var codec := VideoCodec(TakenId(name, upper, lower), name, formats[0].apt, formats[0].rtxTime);
      var upper1, lower1 := NextUpper(name, upper), NextLower(name, upper, lower);
      if IsFecCodec(name) {
        AllocatedCodecsArePaired(formats[1..], upper1, lower1);
        PairedAfterFec(codec, Allocate(formats[1..], upper1, lower1));
      } else if lower1 <= LAST_LOWER {
        var upper2, lower2 := NextUpper(name, upper1), NextLower(name, upper1, lower1);
        AllocatedCodecsArePaired(formats[1..], upper2, lower2);
        PairedAfterRtx(codec, TakenId(name, upper1, lower1), Allocate(formats[1..], upper2, lower2));
      }
    }
  }

  /** The formats the codecs stand for, in order, without the RTX codecs that were added. */
  ghost function FormatsOf(codecs: seq<VideoCodec>): seq<SdpVideoFormat> {
    if codecs == [] then []
    else if codecs[0].name == NameRtx then FormatsOf(codecs[1..])
    else [SdpVideoFormat(codecs[0].name, codecs[0].apt, codecs[0].rtxTime)] + FormatsOf(codecs[1..])
  }

  /** Formats are taken up in order, and one is skipped only once the range [35,63] is used up. */
  lemma {:induction false} AllocatesAPrefix(formats: seq<SdpVideoFormat>, upper: int, lower: int)
    requires NoneNamedRtx(formats) && FIRST_LOWER <= lower && FIRST_UPPER <= upper
    ensures FormatsOf(Allocate(formats, upper, lower)) <= formats
    ensures FormatsOf(Allocate(formats, upper, lower)) != formats ==>
              forall id :: lower <= id <= LAST_LOWER ==> HasId(Allocate(formats, upper, lower), id)
  {
    var out := Allocate(formats, upper, lower);
    if formats != [] && lower <= LAST_LOWER {
      var name := formats[0].name;
      assert name != NameRtx;
      var upper1, lower1 := NextUpper(name, upper), NextLower(name, upper, lower);
      if IsFecCodec(name) {
        AllocatesAPrefix(formats[1..], upper1, lower1);
        assert out == [out[0]] + out[1..] && out[1..] == Allocate(formats[1..], upper1, lower1);
        HasIdSplit(out, 1);
      } else if lower1 <= LAST_LOWER {
        var upper2, lower2 := NextUpper(name, upper1), NextLower(name, upper1, lower1);
        AllocatesAPrefix(formats[1..], upper2, lower2);
        assert out[1..][1..] == out[2..] && out[2..] == Allocate(formats[1..], upper2, lower2);
        HasIdSplit(out, 2);
      }
    }
  }

  /** What is advertised is the supported formats, then RED, then ULPFEC, unless the low range is used up. */
  lemma RedAndUlpfecComeLast(supported: seq<SdpVideoFormat>)
    requires NoneNamedRtx(supported)
    ensures var out := Allocate(Advertised(supported), FIRST_UPPER, FIRST_LOWER);
      FormatsOf(out) == supported + [SdpVideoFormat(NameRed, None, None), SdpVideoFormat(NameUlpfec, None, None)] ||
      forall id :: 35 <= id <= 63 ==> HasId(out, id)
  {
    AllocatesAPrefix(Advertised(supported), FIRST_UPPER, FIRST_LOWER);
  }

  /** The codec an RTX codec serves sits before it; any other serves itself. */
  ghost function ServedName(codecs: seq<VideoCodec>, i: nat): CodecName
    requires i < |codecs|
  {
    if codecs[i].name == NameRtx && i > 0 then codecs[i - 1].name else codecs[i].name
  }

  /** FlexFEC and AV1, with their RTX codecs, get ids of the low range; anything else gets one only after all ids
      that were left of the high range. */
  ghost predicate InItsRange(codecs: seq<VideoCodec>, upper: int, i: nat)
    requires i < |codecs|
  {
    if ServedName(codecs, i) in {NameFlexfec, NameAv1, NameAv1x} then codecs[i].id <= 63
    else codecs[i].id <= 63 ==> forall id :: upper <= id <= 126 ==> HasId(codecs[..i], id)
  }

  lemma {:induction false} LowRangeIsForNewCodecs(formats: seq<SdpVideoFormat>, upper: int, lower: int, i: nat)
    requires 96 <= upper <= 127 && 35 <= lower && NoneNamedRtx(formats)
    requires i < |Allocate(formats, upper, lower)|
    ensures InItsRange(Allocate(formats, upper, lower), upper, i)
    decreases |formats|
  {
    var out, name := Allocate(formats, upper, lower), formats[0].name;
    var upper1, lower1 := NextUpper(name, upper), NextLower(name, upper, lower);
    if IsFecCodec(name) {
      if i >= 1 {
        LowRangeIsForNewCodecs(formats[1..], upper1, lower1, i - 1);
        NextIsNoRtx(formats[1..], upper1, lower1);
        RangeBehind(out, 1, upper, upper1, i);
      }
    } else if lower1 <= LAST_LOWER {
      var upper2, lower2 := NextUpper(name, upper1), NextLower(name, upper1, lower1);
      assert out[1..][1..] == out[2..];
      if i >= 2 {
        LowRangeIsForNewCodecs(formats[1..], upper2, lower2, i - 2);
        NextIsNoRtx(formats[1..], upper2, lower2);
        RangeBehind(out, 2, upper, upper2, i);
      } else {
        HasItsIds(out[..1]);
      }
    }
  }

  lemma NextIsNoRtx(formats: seq<SdpVideoFormat>, upper: int, lower: int)
    requires NoneNamedRtx(formats)
    ensures Allocate(formats, upper, lower) != [] ==> Allocate(formats, upper, lower)[0].name != NameRtx
  {
  }

  lemma HasItsIds(codecs: seq<VideoCodec>)
    ensures forall j :: 0 <= j < |codecs| ==> HasId(codecs, codecs[j].id)
  {
  }

  /** The codecs in front have taken the ids from `upper` to `upper'`. */
  lemma RangeBehind(out: seq<VideoCodec>, k: nat, upper: int, upper': int, i: nat)
    requires 1 <= k <= i < |out| && InItsRange(out[k..], upper', i - k)
    requires out[k].name != NameRtx
    requires upper' - upper <= k && forall j :: 0 <= j < upper' - upper ==> out[j].id == upper + j
    ensures InItsRange(out, upper, i)
  {
    assert ServedName(out, i) == ServedName(out[k..], i - k);
    assert out[k..][..i - k] == out[..i][k..];
    HasIdSplit(out[..i], k);
    forall id | upper <= id < upper' ensures HasId(out[..i], id) {
      assert out[..i][id - upper].id == id;
    }
  }

  ghost predicate HasId(codecs: seq<VideoCodec>, id: int) {
    exists i :: 0 <= i < |codecs| && codecs[i].id == id
  }

  lemma HasIdSplit(codecs: seq<VideoCodec>, k: nat)
    requires k <= |codecs|
    ensures forall id :: HasId(codecs[k..], id) ==> HasId(codecs, id)
    ensures forall i :: 0 <= i < k ==> HasId(codecs, codecs[i].id)
  {
    forall id | HasId(codecs[k..], id) ensures HasId(codecs, id) {
      var i :| 0 <= i < |codecs[k..]| && codecs[k..][i].id == id;
      assert codecs[k + i].id == id;
    }
  }

  /* ---- MapCodecs ---- */

  /** -1 stands for an absent payload type. */
  datatype UlpfecConfig = UlpfecConfig(ulpfecPayloadType: int, redPayloadType: int, redRtxPayloadType: int)

  datatype VideoCodecSettings = VideoCodecSettings(
    codec: VideoCodec,
    ulpfec: UlpfecConfig,
    flexfecPayloadType: int,
    rtxPayloadType: int,
    rtxTime: int)

  predicate IsValidRtpPayloadType(payloadType: int) {
    0 <= payloadType <= 127
  }

  ghost predicate IsRtxFor(codec: VideoCodec, payloadType: int) {
    codec.GetCodecType() == CodecRtx && codec.apt == Some(payloadType)
  }

  /** The RTX codec names a payload type that a video or RED codec of the list has. */
  ghost predicate RtxTargetExists(codecs: seq<VideoCodec>, rtx: VideoCodec) {
    && rtx.apt.Some? && IsValidRtpPayloadType(rtx.apt.value)
    && exists j :: 0 <= j < |codecs| && codecs[j].id == rtx.apt.value &&
                   codecs[j].GetCodecType() in {CodecVideo, CodecRed}
  }

  /** The lists MapCodecs does not reject. */
  ghost predicate Accepts(codecs: seq<VideoCodec>) {
    && UniqueIds(codecs)
    && forall i :: 0 <= i < |codecs| && codecs[i].GetCodecType() == CodecRtx ==> RtxTargetExists(codecs, codecs[i])
  }

  /** The last RTX codec for a payload type wins. */
  ghost function RtxFor(codecs: seq<VideoCodec>, payloadType: int): Option<int> {
    if codecs == [] then None
    else if IsRtxFor(codecs[|codecs| - 1], payloadType) then Some(codecs[|codecs| - 1].id)
    else RtxFor(codecs[..|codecs| - 1], payloadType)
  }

  /** The last positive rtx-time given for a payload type, by whichever RTX codec. */
  ghost function RtxTimeFor(codecs: seq<VideoCodec>, payloadType: int): Option<int> {
    if codecs == [] then None else
      var last := codecs[|codecs| - 1];
      if IsRtxFor(last, payloadType) && last.rtxTime.Some? && last.rtxTime.value > 0 then last.rtxTime
      else RtxTimeFor(codecs[..|codecs| - 1], payloadType)
  }

  /** The first codec of this type wins; RED and ULPFEC treat -1 as not yet seen. */
  ghost function FirstOf(codecs: seq<VideoCodec>, kind: CodecType): Option<int> {
    if codecs == [] then None else
      var before, last := FirstOf(codecs[..|codecs| - 1], kind), codecs[|codecs| - 1];
      if before.Some? && (kind == CodecFlexfec || before.value != -1) then before
      else if last.GetCodecType() == kind then Some(last.id)
      else before
  }

  ghost function Videos(codecs: seq<VideoCodec>): seq<VideoCodec> {
    if codecs == [] then [] else
      var before, last := Videos(codecs[..|codecs| - 1]), codecs[|codecs| - 1];
      if last.GetCodecType() == CodecVideo then before + [last] else before
  }

  ghost function UlpfecOf(codecs: seq<VideoCodec>): UlpfecConfig {
    var red := FirstOf(codecs, CodecRed).GetOr(-1);
    UlpfecConfig(FirstOf(codecs, CodecUlpfec).GetOr(-1), red, RtxFor(codecs, red).GetOr(-1))
  }

  ghost function SettingsOf(codecs: seq<VideoCodec>, codec: VideoCodec): VideoCodecSettings {
    var time := RtxTimeFor(codecs, codec.id);
    VideoCodecSettings(codec, UlpfecOf(codecs), FirstOf(codecs, CodecFlexfec).GetOr(-1),
      RtxFor(codecs, codec.id).GetOr(-1),
      if time.None? then -1 else if time.value < NACK_HISTORY_MS then time.value else NACK_HISTORY_MS)
  }

  ghost function Mapped(codecs: seq<VideoCodec>): seq<VideoCodecSettings> {
    seq(|Videos(codecs)|, i requires 0 <= i < |Videos(codecs)| => SettingsOf(codecs, Videos(codecs)[i]))
  }

  ghost predicate TypesRecorded(codecs: seq<VideoCodec>, types: map<int, CodecType>) {
    && (forall id :: id in types <==> HasId(codecs, id))
    && (forall i :: 0 <= i < |codecs| ==> codecs[i].id in types && types[codecs[i].id] == codecs[i].GetCodecType())
  }

  ghost predicate RtxRecorded(codecs: seq<VideoCodec>, rtx: map<int, int>, times: map<int, int>) {
    && (forall pt :: RtxFor(codecs, pt) == if pt in rtx then Some(rtx[pt]) else None)
    && (forall pt :: RtxTimeFor(codecs, pt) == if pt in times then Some(times[pt]) else None)
  }

  ghost predicate RtxParametersOk(codecs: seq<VideoCodec>) {
    forall i :: 0 <= i < |codecs| && codecs[i].GetCodecType() == CodecRtx ==>
      codecs[i].apt.Some? && IsValidRtpPayloadType(codecs[i].apt.value)
  }

  lemma TypesRecordedAppend(codecs: seq<VideoCodec>, types: map<int, CodecType>, codec: VideoCodec)
    requires TypesRecorded(codecs, types) && UniqueIds(codecs)
    ensures codec.id in types ==> !UniqueIds(codecs + [codec])
    ensures codec.id !in types ==>
              UniqueIds(codecs + [codec]) && TypesRecorded(codecs + [codec], types[codec.id := codec.GetCodecType()])
  {
    var all := codecs + [codec];
    if codec.id in types {
      var i :| 0 <= i < |codecs| && codecs[i].id == codec.id;
      assert all[i].id == all[|codecs|].id;
    } else {
      forall i | 0 <= i < |codecs| ensures codecs[i].id != codec.id {
        assert HasId(codecs, codecs[i].id);
      }
      forall id ensures HasId(all, id) <==> id == codec.id || HasId(codecs, id) {
        assert all[|codecs|].id == codec.id;
        if HasId(codecs, id) {
          var i :| 0 <= i < |codecs| && codecs[i].id == id;
          assert all[i].id == id;
        }
      }
    }
  }

  lemma RtxRecordedAppend(codecs: seq<VideoCodec>, rtx: map<int, int>, times: map<int, int>, codec: VideoCodec)
    requires RtxRecorded(codecs, rtx, times)
    requires codec.GetCodecType() == CodecRtx ==> codec.apt.Some?
    ensures codec.GetCodecType() != CodecRtx ==> RtxRecorded(codecs + [codec], rtx, times)
    ensures codec.GetCodecType() == CodecRtx ==>
              RtxRecorded(codecs + [codec], rtx[codec.apt.value := codec.id],
                if codec.rtxTime.Some? && codec.rtxTime.value > 0 then times[codec.apt.value := codec.rtxTime.value]
                else times)
  {
    assert (codecs + [codec])[..|codecs|] == codecs;
  }

  lemma FirstOfAppend(codecs: seq<VideoCodec>, codec: VideoCodec, kind: CodecType)
    ensures FirstOf(codecs + [codec], kind) ==
              var before := FirstOf(codecs, kind);
              if codec.GetCodecType() == kind && (before.None? || (kind != CodecFlexfec && before.value == -1))
              then Some(codec.id) else before
  {
    assert (codecs + [codec])[..|codecs|] == codecs;
  }

  lemma VideosAppend(codecs: seq<VideoCodec>, codec: VideoCodec)
    ensures Videos(codecs + [codec]) ==
              if codec.GetCodecType() == CodecVideo then Videos(codecs) + [codec] else Videos(codecs)
  {
    assert (codecs + [codec])[..|codecs|] == codecs;
  }

  /** What the first loop has gathered, as one value. */
  datatype Gathered = Rejected | Gathered(
    videos: seq<VideoCodec>,
    types: map<int, CodecType>,
    rtx: map<int, int>,
    times: map<int, int>,
    ulpfec: UlpfecConfig,
    flexfec: Option<int>)

  ghost predicate IsGathered(codecs: seq<VideoCodec>, g: Gathered)
    requires g.Gathered?
  {
    && TypesRecorded(codecs, g.types)
    && RtxRecorded(codecs, g.rtx, g.times)
    && g.ulpfec == UlpfecConfig(FirstOf(codecs, CodecUlpfec).GetOr(-1), FirstOf(codecs, CodecRed).GetOr(-1), -1)
    && g.flexfec == FirstOf(codecs, CodecFlexfec)
    && g.videos == Videos(codecs)
  }

  /** The body of the first loop, for a payload type that is new. */
  method GatherCodec(ghost codecs: seq<VideoCodec>, g: Gathered, codec: VideoCodec) returns (r: Gathered)
    requires g.Gathered? && IsGathered(codecs, g) && UniqueIds(codecs) && codec.id !in g.types
    ensures r.Rejected? <==>
              codec.GetCodecType() == CodecRtx && (codec.apt.None? || !IsValidRtpPayloadType(codec.apt.value))
    ensures r.Gathered? ==> IsGathered(codecs + [codec], r)
  {
    TypesRecordedAppend(codecs, g.types, codec);
    VideosAppend(codecs, codec);
    FirstOfAppend(codecs, codec, CodecRed);
    FirstOfAppend(codecs, codec, CodecUlpfec);
    FirstOfAppend(codecs, codec, CodecFlexfec);
    if codec.GetCodecType() != CodecRtx {
      RtxRecordedAppend(codecs, g.rtx, g.times, codec);
    }
    r := g.(types := g.types[codec.id := codec.GetCodecType()]);
    match codec.GetCodecType() {
      case CodecRed =>
        if r.ulpfec.redPayloadType == -1 {
          r := r.(ulpfec := r.ulpfec.(redPayloadType := codec.id));
        }
      case CodecUlpfec =>
        if r.ulpfec.ulpfecPayloadType == -1 {
          r := r.(ulpfec := r.ulpfec.(ulpfecPayloadType := codec.id));
        }
      case CodecFlexfec =>
        if r.flexfec.None? {
          r := r.(flexfec := Some(codec.id));
        }
      case CodecRtx =>
        if codec.apt.None? || !IsValidRtpPayloadType(codec.apt.value) {
          return Rejected;
        }
        RtxRecordedAppend(codecs, g.rtx, g.times, codec);
        var associated := codec.apt.value;
        if codec.rtxTime.Some? && codec.rtxTime.value > 0 {
          r := r.(times := r.times[associated := codec.rtxTime.value]);
        }
        r := r.(rtx := r.rtx[associated := codec.id]);
      case CodecVideo =>
        r := r.(videos := r.videos + [codec]);
    }
  }

  method GatherCodecs(codecs: seq<VideoCodec>) returns (g: Gathered)
    ensures g.Gathered? <==> UniqueIds(codecs) && RtxParametersOk(codecs)
    ensures g.Gathered? ==> IsGathered(codecs, g)
  {
    g := Gathered([], map[], map[], map[], UlpfecConfig(-1, -1, -1), None);
    for i := 0 to |codecs|
      invariant g.Gathered? && IsGathered(codecs[..i], g)
      invariant UniqueIds(codecs[..i]) && RtxParametersOk(codecs[..i])
    {
      assert codecs[..i + 1] == codecs[..i] + [codecs[i]];
      TypesRecordedAppend(codecs[..i], g.types, codecs[i]);
      if codecs[i].id in g.types {
        assert !UniqueIds(codecs[..i + 1]);
        return Rejected;
      }
      g := GatherCodec(codecs[..i], g, codecs[i]);
      if g.Rejected? {
        return;
      }
    }
    assert codecs[..|codecs|] == codecs;
  }

  /** The second loop: every recorded target is a video or RED codec of the list. */
  method CheckTargets(g: Gathered) returns (ok: bool, redRtx: int)
    requires g.Gathered?
    ensures ok <==> forall pt :: pt in g.rtx ==> pt in g.types && g.types[pt] in {CodecVideo, CodecRed}
    ensures ok ==> redRtx == if g.ulpfec.redPayloadType in g.rtx then g.rtx[g.ulpfec.redPayloadType]
                             else g.ulpfec.redRtxPayloadType
  {
    ok, redRtx := true, g.ulpfec.redRtxPayloadType;
    var entries := g.rtx.Items;
    while entries != {}
      invariant entries <= g.rtx.Items
      invariant forall e :: e in g.rtx.Items - entries ==> e.0 in g.types && g.types[e.0] in {CodecVideo, CodecRed}
      invariant redRtx == if g.ulpfec.redPayloadType in g.rtx &&
                            (g.ulpfec.redPayloadType, g.rtx[g.ulpfec.redPayloadType]) !in entries
                          then g.rtx[g.ulpfec.redPayloadType] else g.ulpfec.redRtxPayloadType
    {
      var entry :| entry in entries;
      var associated, rtx := entry.0, entry.1;
      assert associated in g.rtx && g.rtx[associated] == rtx;
      if associated !in g.types {
        return false, redRtx;
      }
      if g.types[associated] != CodecVideo && g.types[associated] != CodecRed {
        return false, redRtx;
      }
      if associated == g.ulpfec.redPayloadType {
        redRtx := rtx;
      }
      entries := entries - {entry};
    }
    forall pt | pt in g.rtx ensures pt in g.types && g.types[pt] in {CodecVideo, CodecRed} {
      assert (pt, g.rtx[pt]) in g.rtx.Items;
    }
  }

  method MapCodecs(codecs: seq<VideoCodec>) returns (r: seq<VideoCodecSettings>)
    ensures r == if Accepts(codecs) then Mapped(codecs) else []
  {
    if codecs == [] {
      return [];
    }
    var g := GatherCodecs(codecs);
    if g.Rejected? {
      return [];
    }
    var ok, redRtx := CheckTargets(g);
    GatheredTargets(codecs, g);
    if !ok {
      return [];
    }
    var ulpfec := g.ulpfec.(redRtxPayloadType := redRtx);
    r := [];
    for i := 0 to |g.videos|
      invariant |r| == i && forall j :: 0 <= j < i ==> r[j] == SettingsOf(codecs, g.videos[j])
    {
      var settings := VideoCodecSettings(g.videos[i], ulpfec, g.flexfec.GetOr(-1), -1, -1);
      var payloadType := g.videos[i].id;
      if payloadType in g.rtx {
        settings := settings.(rtxPayloadType := g.rtx[payloadType]);
        if payloadType in g.times {
          var rtxTime := g.times[payloadType];
          settings := settings.(rtxTime := if rtxTime < NACK_HISTORY_MS then rtxTime else NACK_HISTORY_MS);
        }
      }
      RtxTimeNeedsRtx(codecs, payloadType);
      r := r + [settings];
    }
  }

  lemma {:induction false} RtxTimeNeedsRtx(codecs: seq<VideoCodec>, payloadType: int)
    ensures RtxTimeFor(codecs, payloadType).Some? ==> RtxFor(codecs, payloadType).Some?
  {
    if codecs != [] {
      RtxTimeNeedsRtx(codecs[..|codecs| - 1], payloadType);
    }
  }

  /** RtxFor finds an RTX codec exactly when the list has one for the payload type. */
  lemma {:induction false} RtxForFinds(codecs: seq<VideoCodec>, payloadType: int)
    ensures RtxFor(codecs, payloadType).Some? <==>
              exists i :: 0 <= i < |codecs| && IsRtxFor(codecs[i], payloadType)
    ensures RtxFor(codecs, payloadType).Some? ==>
              exists i :: 0 <= i < |codecs| && IsRtxFor(codecs[i], payloadType) &&
                          RtxFor(codecs, payloadType) == Some(codecs[i].id)
  {
    if codecs != [] {
      RtxForFinds(codecs[..|codecs| - 1], payloadType);
    }
  }

  lemma GatheredTargets(codecs: seq<VideoCodec>, g: Gathered)
    requires g.Gathered? && IsGathered(codecs, g) && UniqueIds(codecs) && RtxParametersOk(codecs)
    ensures (forall pt :: pt in g.rtx ==> pt in g.types && g.types[pt] in {CodecVideo, CodecRed}) <==> Accepts(codecs)
  {
    if forall pt :: pt in g.rtx ==> pt in g.types && g.types[pt] in {CodecVideo, CodecRed} {
      forall i | 0 <= i < |codecs| && codecs[i].GetCodecType() == CodecRtx ensures RtxTargetExists(codecs, codecs[i]) {
        var pt := codecs[i].apt.value;
        RtxForFinds(codecs, pt);
        assert IsRtxFor(codecs[i], pt);
        assert HasId(codecs, pt);
      }
    }
    if Accepts(codecs) {
      forall pt | pt in g.rtx ensures pt in g.types && g.types[pt] in {CodecVideo, CodecRed} {
        RtxForFinds(codecs, pt);
        var i :| 0 <= i < |codecs| && IsRtxFor(codecs[i], pt);
        assert RtxTargetExists(codecs, codecs[i]);
      }
    }
  }

  /* ---- what a mapped list promises, for any input ---- */

  /** The result is the video codecs in input order. */
  lemma {:induction false} VideosKeepOrder(codecs: seq<VideoCodec>, i: nat)
    requires i < |codecs| && codecs[i].GetCodecType() == CodecVideo
    ensures |Videos(codecs[..i])| < |Videos(codecs)|
    ensures Videos(codecs)[|Videos(codecs[..i])|] == codecs[i]
    ensures Videos(codecs[..i]) <= Videos(codecs)
    decreases |codecs|
  {
    var before := codecs[..|codecs| - 1];
    if i < |codecs| - 1 {
      assert before[..i] == codecs[..i];
      VideosKeepOrder(before, i);
    }
  }

  lemma {:induction false} VideosAreVideos(codecs: seq<VideoCodec>, k: nat)
    requires k < |Videos(codecs)|
    ensures exists i :: 0 <= i < |codecs| && codecs[i].GetCodecType() == CodecVideo &&
                        Videos(codecs)[k] == codecs[i] && k == |Videos(codecs[..i])|
  {
    var n := |codecs| - 1;
    if codecs[n].GetCodecType() == CodecVideo && k == |Videos(codecs[..n])| {
      assert Videos(codecs)[k] == codecs[n];
    } else {
      VideosAreVideos(codecs[..n], k);
      var i :| 0 <= i < n && codecs[..n][i].GetCodecType() == CodecVideo &&
               Videos(codecs[..n])[k] == codecs[..n][i] && k == |Videos(codecs[..n][..i])|;
      assert codecs[..n][..i] == codecs[..i];
      assert codecs[i] == Videos(codecs)[k];
    }
  }

  /** An RTX payload type serves one payload type only. */
  lemma RtxIsNotShared(codecs: seq<VideoCodec>, a: int, b: int)
    requires UniqueIds(codecs) && RtxFor(codecs, a).Some? && RtxFor(codecs, a) == RtxFor(codecs, b)
    ensures a == b
  {
    RtxForFinds(codecs, a);
    RtxForFinds(codecs, b);
    var i :| 0 <= i < |codecs| && IsRtxFor(codecs[i], a) && RtxFor(codecs, a) == Some(codecs[i].id);
    var j :| 0 <= j < |codecs| && IsRtxFor(codecs[j], b) && RtxFor(codecs, b) == Some(codecs[j].id);
    assert i == j;
  }

  lemma {:induction false} RtxTimeIsPositive(codecs: seq<VideoCodec>, payloadType: int)
    ensures RtxTimeFor(codecs, payloadType).Some? ==> RtxTimeFor(codecs, payloadType).value > 0
  {
    if codecs != [] {
      RtxTimeIsPositive(codecs[..|codecs| - 1], payloadType);
    }
  }

  /** -1 is the mark of "not yet seen" for RED and ULPFEC, so a codec with this payload type is passed over. */
  ghost predicate Seen(codec: VideoCodec, kind: CodecType) {
    codec.GetCodecType() == kind && (kind == CodecFlexfec || codec.id != -1)
  }

  lemma {:induction false} NothingSeen(codecs: seq<VideoCodec>, kind: CodecType)
    requires forall i :: 0 <= i < |codecs| ==> !Seen(codecs[i], kind)
    ensures FirstOf(codecs, kind).GetOr(-1) == -1
    ensures kind == CodecFlexfec ==> FirstOf(codecs, kind).None?
  {
    if codecs != [] {
      NothingSeen(codecs[..|codecs| - 1], kind);
    }
  }

  /** The payload type reported for RED, ULPFEC or FlexFEC is that of the first codec seen, -1 if there is none. */
  lemma {:induction false} FirstOfIsFirst(codecs: seq<VideoCodec>, kind: CodecType, first: nat)
    requires first < |codecs| && Seen(codecs[first], kind)
    requires forall i :: 0 <= i < first ==> !Seen(codecs[i], kind)
    ensures FirstOf(codecs, kind) == Some(codecs[first].id)
  {
    var n := |codecs| - 1;
    if first == n {
      NothingSeen(codecs[..n], kind);
    } else {
      FirstOfIsFirst(codecs[..n], kind, first);
    }
  }

  /** The codec behind the settings at `k`, and where its RTX payload type comes from. */
  lemma MappedCodec(codecs: seq<VideoCodec>, k: nat) returns (i: nat)
    requires k < |Mapped(codecs)|
    ensures i < |codecs| && codecs[i].GetCodecType() == CodecVideo && k == |Videos(codecs[..i])|
    ensures Mapped(codecs)[k] == SettingsOf(codecs, codecs[i])
  {
    VideosAreVideos(codecs, k);
    i :| 0 <= i < |codecs| && codecs[i].GetCodecType() == CodecVideo &&
         Videos(codecs)[k] == codecs[i] && k == |Videos(codecs[..i])|;
  }

  lemma RtxIsNoVideo(codecs: seq<VideoCodec>, payloadType: int, j: nat)
    requires UniqueIds(codecs) && RtxFor(codecs, payloadType).Some?
    requires j < |codecs| && codecs[j].GetCodecType() == CodecVideo
    ensures RtxFor(codecs, payloadType) != Some(codecs[j].id)
  {
    RtxForFinds(codecs, payloadType);
  }

  /** The positive rtx-time a codec gives. */
  ghost function OwnTime(codec: VideoCodec): Option<int> {
    if codec.rtxTime.Some? && codec.rtxTime.value > 0 then codec.rtxTime else None
  }

  /** Codec `i` is the last RTX codec for the payload type. */
  ghost predicate IsLastRtxFor(codecs: seq<VideoCodec>, payloadType: int, i: nat) {
    && i < |codecs| && IsRtxFor(codecs[i], payloadType)
    && forall j :: i < j < |codecs| ==> !IsRtxFor(codecs[j], payloadType)
  }

  lemma {:induction false} LastRtxWins(codecs: seq<VideoCodec>, payloadType: int, i: nat)
    requires IsLastRtxFor(codecs, payloadType, i)
    ensures RtxFor(codecs, payloadType) == Some(codecs[i].id)
    ensures RtxTimeFor(codecs, payloadType) ==
              if OwnTime(codecs[i]).Some? then OwnTime(codecs[i]) else RtxTimeFor(codecs[..i], payloadType)
  {
    var n := |codecs| - 1;
    if i < n {
      assert codecs[..n][..i] == codecs[..i];
      LastRtxWins(codecs[..n], payloadType, i);
    }
  }

  lemma {:induction false} TimeIsGiven(codecs: seq<VideoCodec>, payloadType: int)
    ensures RtxTimeFor(codecs, payloadType).None? <==>
              forall j :: 0 <= j < |codecs| && IsRtxFor(codecs[j], payloadType) ==> OwnTime(codecs[j]).None?
  {
    if codecs != [] {
      TimeIsGiven(codecs[..|codecs| - 1], payloadType);
    }
  }

  /** A video codec gets the rtx-time of the very RTX codec it gets exactly when that one gives a time, or no
      earlier RTX codec for the same payload type does. */
  lemma TimeIsOfTheSameCodecExactly(codecs: seq<VideoCodec>, payloadType: int, i: nat)
    requires IsLastRtxFor(codecs, payloadType, i)
    ensures RtxFor(codecs, payloadType) == Some(codecs[i].id)
    ensures RtxTimeFor(codecs, payloadType) == OwnTime(codecs[i]) <==>
              OwnTime(codecs[i]).Some? ||
              forall j :: 0 <= j < i && IsRtxFor(codecs[j], payloadType) ==> OwnTime(codecs[j]).None?
  {
    LastRtxWins(codecs, payloadType, i);
    TimeIsGiven(codecs[..i], payloadType);
  }

  /** RTX codec 98 replaces 97 for payload type 96, and the time of 97 stays. */
  lemma TimeOfAnotherCodec()
    ensures var codecs := [VideoCodec(96, OtherName("VP8"), None, None), VideoCodec(97, NameRtx, Some(96), Some(500)),
                           VideoCodec(98, NameRtx, Some(96), None)];
      Accepts(codecs) && |Mapped(codecs)| == 1 &&
      Mapped(codecs)[0].rtxPayloadType == 98 && Mapped(codecs)[0].rtxTime == 500
  {
    var vp8, first := VideoCodec(96, OtherName("VP8"), None, None), VideoCodec(97, NameRtx, Some(96), Some(500));
    TwoRtxForOne(vp8, first, VideoCodec(98, NameRtx, Some(96), None));
  }

  /** Whatever the first codec is called: the second RTX codec gives the payload type, the first one the time. */
  lemma TwoRtxForOne(video: VideoCodec, first: VideoCodec, second: VideoCodec)
    requires video.GetCodecType() == CodecVideo && IsValidRtpPayloadType(video.id)
    requires IsRtxFor(first, video.id) && IsRtxFor(second, video.id)
    requires video.id != first.id && video.id != second.id && first.id != second.id
    requires OwnTime(first).Some? && first.rtxTime.value < NACK_HISTORY_MS && OwnTime(second).None?
    ensures var codecs := [video, first, second];
      Accepts(codecs) && |Mapped(codecs)| == 1 &&
      Mapped(codecs)[0].rtxPayloadType == second.id && Mapped(codecs)[0].rtxTime == first.rtxTime.value
  {
    var codecs := [video, first, second];
    assert codecs[0].id == video.id;
    assert RtxTargetExists(codecs, first) && RtxTargetExists(codecs, second);
    assert codecs[..2] == [video, first];
    LastRtxWins(codecs, video.id, 2);
    LastRtxWins([video, first], video.id, 1);
    OneVideo(video, first, second);
    assert Mapped(codecs)[0] == SettingsOf(codecs, video);
  }

  lemma OneVideo(video: VideoCodec, first: VideoCodec, second: VideoCodec)
    requires video.GetCodecType() == CodecVideo
    requires first.GetCodecType() != CodecVideo && second.GetCodecType() != CodecVideo
    ensures Videos([video, first, second]) == [video]
  {
    assert [video, first, second][..2] == [video, first] && [video, first][..1] == [video];
    assert [video][..0] == [];
    assert Videos([video]) == [video] && Videos([video, first]) == [video];
  }

  /** rtx_time is there exactly when some RTX codec for the video codec gives a positive time, and is then in
      1..1000. */
  lemma MappedTimeIsSound(codecs: seq<VideoCodec>, k: nat)
    requires k < |Mapped(codecs)|
    ensures var s := Mapped(codecs)[k];
      && (s.rtxTime == -1 || 1 <= s.rtxTime <= NACK_HISTORY_MS)
      && (s.rtxTime == -1 <==> forall j :: 0 <= j < |codecs| && IsRtxFor(codecs[j], s.codec.id) ==> OwnTime(codecs[j]).None?)
      && (s.rtxTime != -1 ==> RtxFor(codecs, s.codec.id).Some?)
  {
    var i := MappedCodec(codecs, k);
    RtxTimeIsPositive(codecs, codecs[i].id);
    RtxTimeNeedsRtx(codecs, codecs[i].id);
    TimeIsGiven(codecs, codecs[i].id);
  }

  /** The time is that of the last RTX codec to give one. */
  lemma {:induction false} TimeIsOfTheLastGiver(codecs: seq<VideoCodec>, payloadType: int, g: nat)
    requires g < |codecs| && IsRtxFor(codecs[g], payloadType) && OwnTime(codecs[g]).Some?
    requires forall j :: g < j < |codecs| && IsRtxFor(codecs[j], payloadType) ==> OwnTime(codecs[j]).None?
    ensures RtxTimeFor(codecs, payloadType) == OwnTime(codecs[g])
  {
    if g < |codecs| - 1 {
      TimeIsOfTheLastGiver(codecs[..|codecs| - 1], payloadType, g);
    }
  }

  /** For any accepted list: the payload types of the video codecs differ, and no RTX payload type is used
      twice, by two video codecs or by one and RED, or is that of a video codec. */
  lemma MappedSettingsAreSound(codecs: seq<VideoCodec>, k: nat, l: nat)
    requires Accepts(codecs) && k < |Mapped(codecs)| && l < |Mapped(codecs)|
    ensures var r := Mapped(codecs);
      && (k != l ==> r[k].codec.id != r[l].codec.id)
      && (r[k].rtxPayloadType != -1 ==>
            && (k != l ==> r[k].rtxPayloadType != r[l].rtxPayloadType)
            && r[k].rtxPayloadType != r[l].codec.id
            && r[k].rtxPayloadType != r[k].ulpfec.redRtxPayloadType)
  {
    var i := MappedCodec(codecs, k);
    var j := MappedCodec(codecs, l);
    if RtxFor(codecs, codecs[i].id).GetOr(-1) != -1 {
      RtxIsNoVideo(codecs, codecs[i].id, j);
      var red := FirstOf(codecs, CodecRed).GetOr(-1);
      RedIsNoVideo(codecs, i);
      if RtxFor(codecs, codecs[j].id) == RtxFor(codecs, codecs[i].id) {
        RtxIsNotShared(codecs, codecs[i].id, codecs[j].id);
      }
      if RtxFor(codecs, red) == RtxFor(codecs, codecs[i].id) {
        RtxIsNotShared(codecs, codecs[i].id, red);
      }
    }
  }

  lemma RedIsNoVideo(codecs: seq<VideoCodec>, i: nat)
    requires Accepts(codecs) && i < |codecs| && codecs[i].GetCodecType() == CodecVideo
    requires RtxFor(codecs, codecs[i].id).Some?
    ensures FirstOf(codecs, CodecRed).GetOr(-1) != codecs[i].id
  {
    RtxForFinds(codecs, codecs[i].id);
    var m :| 0 <= m < |codecs| && IsRtxFor(codecs[m], codecs[i].id);
    assert RtxTargetExists(codecs, codecs[m]);
    FirstOfIsListed(codecs, CodecRed);
  }

  lemma {:induction false} FirstOfIsListed(codecs: seq<VideoCodec>, kind: CodecType)
    ensures FirstOf(codecs, kind).Some? ==>
              exists i :: 0 <= i < |codecs| && codecs[i].GetCodecType() == kind && codecs[i].id == FirstOf(codecs, kind).value
  {
    if codecs != [] {
      FirstOfIsListed(codecs[..|codecs| - 1], kind);
    }
  }

  /** `id` is the payload type of the first codec of this type, -1 if there is none. A RED or ULPFEC codec with
      payload type -1 is passed over. */
  ghost predicate IsFirstId(codecs: seq<VideoCodec>, kind: CodecType, id: int) {
    (exists p :: 0 <= p < |codecs| && Seen(codecs[p], kind) && id == codecs[p].id &&
                 forall q :: 0 <= q < p ==> !Seen(codecs[q], kind)) ||
    (id == -1 && forall q :: 0 <= q < |codecs| ==> !Seen(codecs[q], kind))
  }

  /** `id` is the payload type of the last RTX codec for this payload type, -1 if there is none. */
  ghost predicate IsLastRtxId(codecs: seq<VideoCodec>, payloadType: int, id: int) {
    (exists p: nat :: IsLastRtxFor(codecs, payloadType, p) && id == codecs[p].id) ||
    (id == -1 && forall q :: 0 <= q < |codecs| ==> !IsRtxFor(codecs[q], payloadType))
  }

  /** `time` is that of the last RTX codec for this payload type to give one, at most 1000, and -1 if none does. */
  ghost predicate IsLastTime(codecs: seq<VideoCodec>, payloadType: int, time: int) {
    (exists p: nat :: IsLastGiver(codecs, payloadType, p) && time == Smaller(codecs[p].rtxTime.value, 1000)) ||
    (time == -1 && forall q :: 0 <= q < |codecs| ==> !Gives(codecs[q], payloadType))
  }

  ghost function Smaller(a: int, b: int): int { if a < b then a else b }

  ghost predicate Gives(codec: VideoCodec, payloadType: int) {
    IsRtxFor(codec, payloadType) && codec.rtxTime.Some? && codec.rtxTime.value > 0
  }

  ghost predicate IsLastGiver(codecs: seq<VideoCodec>, payloadType: int, p: nat) {
    p < |codecs| && Gives(codecs[p], payloadType) && forall q :: p < q < |codecs| ==> !Gives(codecs[q], payloadType)
  }

  lemma LastTimeExists(codecs: seq<VideoCodec>, payloadType: int)
    ensures var time := RtxTimeFor(codecs, payloadType);
      IsLastTime(codecs, payloadType, if time.None? then -1 else Smaller(time.value, 1000))
  {
    var p := |codecs|;
    while p > 0 && !Gives(codecs[p - 1], payloadType)
      invariant 0 <= p <= |codecs| && forall q :: p <= q < |codecs| ==> !Gives(codecs[q], payloadType)
    {
      p := p - 1;
    }
    if p > 0 {
      TimeIsOfTheLastGiver(codecs, payloadType, p - 1);
      assert IsLastGiver(codecs, payloadType, p - 1);
    } else {
      TimeIsGiven(codecs, payloadType);
    }
  }

  lemma {:induction false} FirstIdExists(codecs: seq<VideoCodec>, kind: CodecType)
    ensures IsFirstId(codecs, kind, FirstOf(codecs, kind).GetOr(-1))
  {
    var p := 0;
    while p < |codecs| && !Seen(codecs[p], kind)
      invariant 0 <= p <= |codecs| && forall q :: 0 <= q < p ==> !Seen(codecs[q], kind)
    {
      p := p + 1;
    }
    if p < |codecs| {
      FirstOfIsFirst(codecs, kind, p);
    } else {
      NothingSeen(codecs, kind);
    }
  }

  lemma LastRtxIdExists(codecs: seq<VideoCodec>, payloadType: int)
    ensures IsLastRtxId(codecs, payloadType, RtxFor(codecs, payloadType).GetOr(-1))
  {
    var p := |codecs|;
    while p > 0 && !IsRtxFor(codecs[p - 1], payloadType)
      invariant 0 <= p <= |codecs| && forall q :: p <= q < |codecs| ==> !IsRtxFor(codecs[q], payloadType)
    {
      p := p - 1;
    }
    if p > 0 {
      LastRtxWins(codecs, payloadType, p - 1);
    } else {
      RtxForFinds(codecs, payloadType);
    }
  }

  /** Where the settings come from: each payload type from the first codec of its own type, the two of RTX from the
      last RTX codec that names the payload type they serve, the time from the last that gives one. */
  lemma SettingsAreOfTheirCodecs(codecs: seq<VideoCodec>, k: nat)
    requires k < |Mapped(codecs)|
    ensures var s := Mapped(codecs)[k];
      && IsFirstId(codecs, CodecRed, s.ulpfec.redPayloadType)
      && IsFirstId(codecs, CodecUlpfec, s.ulpfec.ulpfecPayloadType)
      && IsFirstId(codecs, CodecFlexfec, s.flexfecPayloadType)
      && IsLastRtxId(codecs, s.ulpfec.redPayloadType, s.ulpfec.redRtxPayloadType)
      && IsLastRtxId(codecs, s.codec.id, s.rtxPayloadType)
      && IsLastTime(codecs, s.codec.id, s.rtxTime)
  {
    LastTimeExists(codecs, Videos(codecs)[k].id);
    FirstIdExists(codecs, CodecRed);
    FirstIdExists(codecs, CodecUlpfec);
    FirstIdExists(codecs, CodecFlexfec);
    LastRtxIdExists(codecs, FirstOf(codecs, CodecRed).GetOr(-1));
    LastRtxIdExists(codecs, Videos(codecs)[k].id);
  }

  /** An id has one place in an accepted list, so an RTX codec serves one video or RED codec and no other. */
  lemma RtxServesVideoOrRed(codecs: seq<VideoCodec>, i: nat, j: nat)
    requires Accepts(codecs) && i < |codecs| && j < |codecs| && IsRtxFor(codecs[i], codecs[j].id)
    ensures codecs[j].name !in {NameUlpfec, NameFlexfec, NameRtx} && 0 <= codecs[j].id <= 127
  {
    assert RtxTargetExists(codecs, codecs[i]);
  }

  /* ---- allocator and mapper together ---- */

  ghost predicate ValidIds(codecs: seq<VideoCodec>) {
    forall i :: 0 <= i < |codecs| ==> IsValidRtpPayloadType(codecs[i].id)
  }

  lemma PairedListIsAccepted(codecs: seq<VideoCodec>)
    requires UniqueIds(codecs) && Paired(codecs) && ValidIds(codecs)
    ensures Accepts(codecs)
  {
    forall i | 0 <= i < |codecs| && codecs[i].GetCodecType() == CodecRtx ensures RtxTargetExists(codecs, codecs[i]) {
      assert codecs[i].name == NameRtx;
      assert codecs[i - 1].id == codecs[i].apt.value;
    }
  }

  /** Only the codec right behind can be the RTX codec of codec `i`. */
  lemma OnlyTheNextIsRtx(codecs: seq<VideoCodec>, i: nat, m: nat)
    requires UniqueIds(codecs) && Paired(codecs) && i < |codecs| && m < |codecs| && IsRtxFor(codecs[m], codecs[i].id)
    ensures m == i + 1
  {
    assert codecs[m].name == NameRtx && codecs[m - 1].id == codecs[i].id;
  }

  lemma RtxIsTheNext(codecs: seq<VideoCodec>, i: nat)
    requires UniqueIds(codecs) && Paired(codecs) && i < |codecs| && codecs[i].GetCodecType() in {CodecVideo, CodecRed}
    ensures RtxFor(codecs, codecs[i].id) == if i + 1 < |codecs| then Some(codecs[i + 1].id) else None
  {
    RtxForFinds(codecs, codecs[i].id);
    forall m: nat | m < |codecs| && IsRtxFor(codecs[m], codecs[i].id) ensures m == i + 1 {
      OnlyTheNextIsRtx(codecs, i, m);
    }
    if i + 1 < |codecs| {
      assert codecs[i + 1].name == NameRtx && IsRtxFor(codecs[i + 1], codecs[i].id);
    }
  }

  /** MapCodecs accepts a paired list and ties each codec to the RTX codec behind it. */
  lemma PairedListIsMapped(codecs: seq<VideoCodec>, i: nat)
    requires UniqueIds(codecs) && Paired(codecs) && ValidIds(codecs)
    requires i < |codecs| && codecs[i].GetCodecType() == CodecVideo
    ensures Accepts(codecs)
    ensures var k := |Videos(codecs[..i])|;
      k < |Mapped(codecs)| && Mapped(codecs)[k].codec == codecs[i] && Mapped(codecs)[k].rtxTime == -1 &&
      Mapped(codecs)[k].rtxPayloadType == if i + 1 < |codecs| then codecs[i + 1].id else -1
  {
    PairedListIsAccepted(codecs);
    RtxIsTheNext(codecs, i);
    NoRtxTimes(codecs, codecs[i].id);
    VideosKeepOrder(codecs, i);
    assert Mapped(codecs)[|Videos(codecs[..i])|] == SettingsOf(codecs, codecs[i]);
  }

  lemma {:induction false} NoRtxTimes(codecs: seq<VideoCodec>, pt: int)
    requires forall i :: 0 <= i < |codecs| && codecs[i].name == NameRtx ==> codecs[i].rtxTime == None
    ensures RtxTimeFor(codecs, pt) == None
  {
    if codecs != [] {
      NoRtxTimes(codecs[..|codecs| - 1], pt);
    }
  }

  /** For every non-empty list of formats, none named rtx: the allocator's list is accepted, and its
      video codecs come back in order, each with exactly the RTX payload type allocated behind it. */
  lemma AllocatedListIsMapped(supported: seq<SdpVideoFormat>, i: nat)
    requires supported != [] && NoneNamedRtx(supported)
    requires i < |Allocate(Advertised(supported), FIRST_UPPER, FIRST_LOWER)|
    ensures var out := Allocate(Advertised(supported), FIRST_UPPER, FIRST_LOWER);
      && Accepts(out) && UniqueIds(out)
      && (FIRST_LOWER <= out[i].id <= LAST_LOWER || FIRST_UPPER <= out[i].id < LAST_UPPER)
      && (out[i].GetCodecType() == CodecVideo ==>
           var k := |Videos(out[..i])|;
           k < |Mapped(out)| && Mapped(out)[k].codec == out[i] && Mapped(out)[k].rtxTime == -1 &&
           Mapped(out)[k].rtxPayloadType == if i + 1 < |out| then out[i + 1].id else -1)
  {
    var out := Allocate(Advertised(supported), FIRST_UPPER, FIRST_LOWER);
    AllocatedIdsAreDistinct(Advertised(supported), FIRST_UPPER, FIRST_LOWER);
    AllocatedCodecsArePaired(Advertised(supported), FIRST_UPPER, FIRST_LOWER);
    forall j | 0 <= j < |out| ensures IsValidRtpPayloadType(out[j].id) {
      assert Available(out[j].id, FIRST_UPPER, FIRST_LOWER);
    }
    assert Available(out[i].id, FIRST_UPPER, FIRST_LOWER);
    PairedListIsAccepted(out);
    if out[i].GetCodecType() == CodecVideo {
      PairedListIsMapped(out, i);
    }
  }
}
