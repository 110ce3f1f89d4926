/** MergeInfoAboutOutboundRtpSubstreams: RTX and FlexFEC counters move to their media stream. */
module StatsMerge {
  import opened Wrappers

  type Ssrc = nat

  datatype RtpPacketCounter = RtpPacketCounter(headerBytes: nat, payloadBytes: nat, paddingBytes: nat, packets: nat)

  datatype StreamDataCounters = StreamDataCounters(
    transmitted: RtpPacketCounter,
    retransmitted: RtpPacketCounter,
    fec: RtpPacketCounter)

  datatype StreamType = Media | Rtx | Flexfec

  datatype StreamStats = StreamStats(kind: StreamType, referencedMediaSsrc: Option<Ssrc>, rtpStats: StreamDataCounters)

  const ZERO_COUNTER := RtpPacketCounter(0, 0, 0, 0)
  const ZERO := StreamDataCounters(ZERO_COUNTER, ZERO_COUNTER, ZERO_COUNTER)

  /** What a map inserts for a key that operator[] does not find. */
  const DEFAULT_STATS := StreamStats(Media, None, ZERO)

  function AddCounter(a: RtpPacketCounter, b: RtpPacketCounter): RtpPacketCounter {
    RtpPacketCounter(a.headerBytes + b.headerBytes, a.payloadBytes + b.payloadBytes,
      a.paddingBytes + b.paddingBytes, a.packets + b.packets)
  }

  function Add(a: StreamDataCounters, b: StreamDataCounters): StreamDataCounters {
    StreamDataCounters(AddCounter(a.transmitted, b.transmitted), AddCounter(a.retransmitted, b.retransmitted),
      AddCounter(a.fec, b.fec))
  }

  lemma AddLaws(a: StreamDataCounters, b: StreamDataCounters, c: StreamDataCounters)
    ensures Add(a, Add(b, c)) == Add(b, Add(a, c))
    ensures Add(a, Add(b, c)) == Add(Add(a, b), c)
    ensures Add(a, b) == Add(b, a)
    ensures Add(a, ZERO) == a
  {
  }

  type Substreams = map<Ssrc, StreamStats>

  ghost function CountersOf(substreams: Substreams, s: Ssrc): StreamDataCounters {
    if s in substreams then substreams[s].rtpStats else ZERO
  }

  /** The source checks that an RTX or FlexFEC substream has a reference. */
  ghost predicate Referencing(substreams: Substreams) {
    forall s :: s in substreams && substreams[s].kind != Media ==> substreams[s].referencedMediaSsrc.Some?
  }

  /** The substreams whose counters move to `media`. */
  ghost predicate MovesTo(substreams: Substreams, s: Ssrc, media: Ssrc) {
    && s in substreams && substreams[s].kind != Media
    && substreams[s].referencedMediaSsrc == Some(media) && media in substreams
  }

  ghost function MovedTo(substreams: Substreams, done: set<Ssrc>, media: Ssrc): set<Ssrc> {
    set s | s in done && MovesTo(substreams, s, media)
  }

  /** Sum of the counters of a set of substreams; the order does not matter. */
  ghost function Total(substreams: Substreams, which: set<Ssrc>): StreamDataCounters {
    if which == {} then ZERO else
      var s :| s in which;
      Add(CountersOf(substreams, s), Total(substreams, which - {s}))
  }

  lemma {:induction false} TotalSplits(substreams: Substreams, which: set<Ssrc>, s: Ssrc)
    requires s in which
    ensures Total(substreams, which) == Add(CountersOf(substreams, s), Total(substreams, which - {s}))
    decreases |which|
  {
    var t :| t in which && Total(substreams, which) == Add(CountersOf(substreams, t), Total(substreams, which - {t}));
    if t != s {
      TotalSplits(substreams, which - {t}, s);
      TotalSplits(substreams, which - {s}, t);
      assert which - {t} - {s} == which - {s} - {t};
      AddLaws(CountersOf(substreams, t), CountersOf(substreams, s), Total(substreams, which - {t} - {s}));
    }
  }

  lemma TotalIncludes(substreams: Substreams, which: set<Ssrc>, s: Ssrc)
    requires s !in which
    ensures Total(substreams, which + {s}) == Add(Total(substreams, which), CountersOf(substreams, s))
  {
    TotalSplits(substreams, which + {s}, s);
    assert which + {s} - {s} == which;
    AddLaws(CountersOf(substreams, s), Total(substreams, which), ZERO);
  }

  lemma {:induction false} TotalOfDisjoint(substreams: Substreams, a: set<Ssrc>, b: set<Ssrc>)
    requires a !! b
    ensures Total(substreams, a + b) == Add(Total(substreams, a), Total(substreams, b))
    decreases |a|
  {
    if a == {} {
      assert a + b == b;
      AddLaws(Total(substreams, b), ZERO, ZERO);
    } else {
      var s :| s in a;
      var rest := a - {s};
      assert a + b - {s} == rest + b;
      calc {
        Total(substreams, a + b);
        { TotalSplits(substreams, a + b, s); }
        Add(CountersOf(substreams, s), Total(substreams, rest + b));
        { TotalOfDisjoint(substreams, rest, b); }
        Add(CountersOf(substreams, s), Add(Total(substreams, rest), Total(substreams, b)));
        { AddLaws(CountersOf(substreams, s), Total(substreams, rest), Total(substreams, b)); }
        Add(Add(CountersOf(substreams, s), Total(substreams, rest)), Total(substreams, b));
        { TotalSplits(substreams, a, s); }
        Add(Total(substreams, a), Total(substreams, b));
      }
    }
  }

  ghost function Own(substreams: Substreams, m: Ssrc): StreamStats {
    if m in substreams && substreams[m].kind == Media then substreams[m] else DEFAULT_STATS
  }

  /** An entry: the media stream's own statistics, with the counters of `moved` on top. */
  ghost function Entry(substreams: Substreams, moved: set<Ssrc>, m: Ssrc): StreamStats {
    Own(substreams, m).(rtpStats := Add(Own(substreams, m).rtpStats, Total(substreams, moved)))
  }

  ghost predicate MergedAt(substreams: Substreams, done: set<Ssrc>, r: Substreams, m: Ssrc) {
    && (m in r <==> m in substreams && (substreams[m].kind == Media || MovedTo(substreams, done, m) != {}))
    && (m in r ==> r[m] == Entry(substreams, MovedTo(substreams, done, m), m))
  }

  /** The result once the substreams in `done` have been merged: media streams, and whatever else is
      referred to, each with the counters of all that refer to it. */
  ghost predicate IsMerged(substreams: Substreams, done: set<Ssrc>, r: Substreams) {
    forall m :: MergedAt(substreams, done, r, m)
  }

  method Merge(substreams: Substreams) returns (r: Substreams)
    requires Referencing(substreams)
    ensures IsMerged(substreams, substreams.Keys, r)
  {
    r := AddMediaSubstreams(substreams);
    var todo := substreams.Items;
    ghost var done: set<Ssrc> := {};
    while todo != {}
      invariant todo <= substreams.Items && done <= substreams.Keys
      invariant forall s :: s in substreams ==> (s in done <==> (s, substreams[s]) !in todo)
      invariant IsMerged(substreams, done, r)
    {
      var pair :| pair in todo;
      r := MergeOne(substreams, done, pair.0, r);
      todo := todo - {pair};
      done := done + {pair.0};
    }
    assert done == substreams.Keys by {
      forall s | s in substreams ensures s in done {
        assert (s, substreams[s]) !in todo;
      }
    }
  }

  /** First loop: the media substreams as they are. */
  method AddMediaSubstreams(substreams: Substreams) returns (r: Substreams)
    ensures IsMerged(substreams, {}, r)
  {
    r := map[];
    var todo := substreams.Items;
    while todo != {}
      invariant todo <= substreams.Items
      invariant forall m :: m in r <==> m in substreams && substreams[m].kind == Media && (m, substreams[m]) !in todo
      invariant forall m :: m in r ==> r[m] == substreams[m]
    {
      var pair :| pair in todo;
      if pair.1.kind == Media {
        r := r[pair.0 := pair.1];
      }
      todo := todo - {pair};
    }
    forall m ensures MergedAt(substreams, {}, r, m) {
      assert MovedTo(substreams, {}, m) == {};
      AddLaws(Own(substreams, m).rtpStats, ZERO, ZERO);
    }
  }

  lemma MovedToGrows(substreams: Substreams, done: set<Ssrc>, s: Ssrc, m: Ssrc)
    requires s in substreams
    ensures MovedTo(substreams, done + {s}, m) ==
              if MovesTo(substreams, s, m) then MovedTo(substreams, done, m) + {s} else MovedTo(substreams, done, m)
  {
  }

  lemma EntryGrows(substreams: Substreams, moved: set<Ssrc>, s: Ssrc, m: Ssrc)
    requires s in substreams && s !in moved
    ensures var before := Entry(substreams, moved, m);
      Entry(substreams, moved + {s}, m) == before.(rtpStats := Add(before.rtpStats, substreams[s].rtpStats))
    ensures Entry(substreams, {}, m) == Own(substreams, m)
  {
    TotalIncludes(substreams, moved, s);
    AddLaws(Own(substreams, m).rtpStats, Total(substreams, moved), substreams[s].rtpStats);
    AddLaws(Own(substreams, m).rtpStats, ZERO, ZERO);
  }

  lemma UnmovedKeepsMerged(substreams: Substreams, done: set<Ssrc>, s: Ssrc, merged: Substreams)
    requires s in substreams && IsMerged(substreams, done, merged)
    requires forall m :: !MovesTo(substreams, s, m)
    ensures IsMerged(substreams, done + {s}, merged)
  {
    forall m ensures MergedAt(substreams, done + {s}, merged, m) {
      MovedToGrows(substreams, done, s, m);
      assert MergedAt(substreams, done, merged, m);
    }
  }

  lemma MovedGrowsMerged(substreams: Substreams, done: set<Ssrc>, s: Ssrc, media: Ssrc, merged: Substreams)
    requires s in substreams && s !in done && IsMerged(substreams, done, merged) && MovesTo(substreams, s, media)
    ensures IsMerged(substreams, done + {s}, WithMoved(substreams, s, media, merged))
  {
    forall m ensures MergedAt(substreams, done + {s}, WithMoved(substreams, s, media, merged), m) {
      MovedToGrows(substreams, done, s, m);
      assert MergedAt(substreams, done, merged, m);
      if m == media {
        MovedReachesMedia(substreams, done, s, media, merged);
      }
    }
  }

  ghost function WithMoved(substreams: Substreams, s: Ssrc, media: Ssrc, merged: Substreams): Substreams
    requires s in substreams
  {
    var stream := if media in merged then merged[media] else DEFAULT_STATS;
    merged[media := stream.(rtpStats := Add(stream.rtpStats, substreams[s].rtpStats))]
  }

  lemma MovedReachesMedia(substreams: Substreams, done: set<Ssrc>, s: Ssrc, media: Ssrc, merged: Substreams)
    requires s in substreams && s !in done && MovesTo(substreams, s, media)
    requires MergedAt(substreams, done, merged, media)
    ensures WithMoved(substreams, s, media, merged)[media] == Entry(substreams, MovedTo(substreams, done + {s}, media), media)
    ensures MovedTo(substreams, done + {s}, media) != {}
  {
    EntryAfter(substreams, done, s, media);
    if media !in merged {
      EntryOfNone(substreams, media);
    }
  }

  lemma EntryAfter(substreams: Substreams, done: set<Ssrc>, s: Ssrc, media: Ssrc)
    requires s in substreams && s !in done && MovesTo(substreams, s, media)
    ensures MovedTo(substreams, done + {s}, media) != {}
    ensures var before := Entry(substreams, MovedTo(substreams, done, media), media);
      Entry(substreams, MovedTo(substreams, done + {s}, media), media) ==
        before.(rtpStats := Add(before.rtpStats, substreams[s].rtpStats))
  {
    var moved := MovedTo(substreams, done, media);
    MovedToGrows(substreams, done, s, media);
    EntryGrows(substreams, moved, s, media);
    assert s in moved + {s};
  }

  lemma EntryOfNone(substreams: Substreams, m: Ssrc)
    ensures Entry(substreams, {}, m) == Own(substreams, m)
  {
    AddLaws(Own(substreams, m).rtpStats, ZERO, ZERO);
  }

  /** Body of the second loop. */
  method MergeOne(substreams: Substreams, ghost done: set<Ssrc>, s: Ssrc, merged: Substreams) returns (r: Substreams)
    requires Referencing(substreams) && s in substreams && s !in done
    requires IsMerged(substreams, done, merged)
    ensures IsMerged(substreams, done + {s}, r)
  {
    var associated := substreams[s];
    if associated.kind == Media {
      UnmovedKeepsMerged(substreams, done, s, merged);
      return merged;
    }
    var media := associated.referencedMediaSsrc.value;
    if media !in substreams {
      UnmovedKeepsMerged(substreams, done, s, merged);
      return merged;
    }
    MovedGrowsMerged(substreams, done, s, media, merged);
    var stream := if media in merged then merged[media] else DEFAULT_STATS;
    r := merged[media := stream.(rtpStats := Add(stream.rtpStats, associated.rtpStats))];
  }

  /** No RTX or FlexFEC substream refers to another one. */
  ghost predicate RefersToMedia(substreams: Substreams) {
    forall s, m :: MovesTo(substreams, s, m) ==> substreams[m].kind == Media
  }

  /** The keys are the media SSRCs exactly when every reference that is present is to media; otherwise
      the referenced RTX or FlexFEC SSRC appears with counters that are not its own. */
  lemma KeysAreMediaExactly(substreams: Substreams, r: Substreams)
    requires IsMerged(substreams, substreams.Keys, r)
    ensures r.Keys == (set m | m in substreams && substreams[m].kind == Media) <==> RefersToMedia(substreams)
  {
    var media := set m | m in substreams && substreams[m].kind == Media;
    if r.Keys == media {
      forall s, m | MovesTo(substreams, s, m) ensures substreams[m].kind == Media {
        assert MergedAt(substreams, substreams.Keys, r, m);
        assert s in MovedTo(substreams, substreams.Keys, m);
        assert m in r.Keys;
      }
    }
    if RefersToMedia(substreams) {
      forall m | m in media ensures m in r {
        assert MergedAt(substreams, substreams.Keys, r, m);
      }
      forall m | m in r ensures m in media {
        assert MergedAt(substreams, substreams.Keys, r, m);
        var moved := MovedTo(substreams, substreams.Keys, m);
        assert moved != {} ==> exists s :: s in moved && MovesTo(substreams, s, m);
      }
    }
  }

  /** Media 10, RTX 11 for it, FlexFEC 12 for the RTX: the result has an entry for 11, with the counters of 12
      and not its own. */
  lemma ReferenceToRtxMakesAnEntry(a: StreamDataCounters, b: StreamDataCounters, c: StreamDataCounters, r: Substreams)
    requires var substreams: Substreams := map[10 := StreamStats(Media, None, a), 11 := StreamStats(Rtx, Some(10), b),
                                               12 := StreamStats(Flexfec, Some(11), c)];
      IsMerged(substreams, substreams.Keys, r)
    ensures 11 in r && r[11] == StreamStats(Media, None, c)
  {
    var substreams: Substreams := map[10 := StreamStats(Media, None, a), 11 := StreamStats(Rtx, Some(10), b),
                                      12 := StreamStats(Flexfec, Some(11), c)];
    assert MovesTo(substreams, 12, 11);
    assert MovedTo(substreams, substreams.Keys, 11) == {12};
    assert MergedAt(substreams, substreams.Keys, r, 11);
    TotalSplits(substreams, {12}, 12);
    assert {12} - {12} == {};
    AddLaws(c, ZERO, ZERO);
  }

  /* ---- conservation over the whole map ---- */

  /** Media substreams, and the others whose reference is present: the ones that are not ignored. */
  ghost predicate Counted(substreams: Substreams, s: Ssrc) {
    s in substreams &&
    (substreams[s].kind == Media ||
     (substreams[s].referencedMediaSsrc.Some? && substreams[s].referencedMediaSsrc.value in substreams))
  }

  /** Which substreams end up in the entries `keys` of the result. */
  ghost function Sources(substreams: Substreams, keys: set<Ssrc>): set<Ssrc> {
    set s | s in substreams &&
      ((substreams[s].kind == Media && s in keys) || (exists m :: m in keys && MovesTo(substreams, s, m)))
  }

  lemma SourcesGrow(substreams: Substreams, keys: set<Ssrc>, m: Ssrc)
    requires m !in keys
    ensures var own, moved := OwnSource(substreams, m), MovedTo(substreams, substreams.Keys, m);
      && own !! moved && Sources(substreams, keys) !! own + moved
      && Sources(substreams, keys + {m}) == Sources(substreams, keys) + (own + moved)
  {
    forall s ensures MovesTo(substreams, s, m) <==> s in MovedTo(substreams, substreams.Keys, m) {}
  }

  lemma {:induction false} EntriesSumToSources(substreams: Substreams, r: Substreams, keys: set<Ssrc>)
    requires IsMerged(substreams, substreams.Keys, r) && keys <= r.Keys
    ensures Total(r, keys) == Total(substreams, Sources(substreams, keys))
    decreases |keys|
  {
    if keys == {} {
      assert Sources(substreams, keys) == {};
    } else {
      var m :| m in keys;
      var rest, moved := keys - {m}, MovedTo(substreams, substreams.Keys, m);
      EntriesSumToSources(substreams, r, rest);
      TotalSplits(r, keys, m);
      OwnTotal(substreams, m);
      assert MergedAt(substreams, substreams.Keys, r, m);
      var own := OwnSource(substreams, m);
      assert rest + {m} == keys;
      SourcesGrow(substreams, rest, m);
      TotalOfDisjoint(substreams, own, moved);
      TotalOfDisjoint(substreams, Sources(substreams, rest), own + moved);
      AddLaws(Total(substreams, own + moved), Total(substreams, Sources(substreams, rest)), ZERO);
    }
  }

  ghost function OwnSource(substreams: Substreams, m: Ssrc): set<Ssrc> {
    if m in substreams && substreams[m].kind == Media then {m} else {}
  }

  lemma OwnTotal(substreams: Substreams, m: Ssrc)
    ensures Total(substreams, OwnSource(substreams, m)) == Own(substreams, m).rtpStats
  {
    if OwnSource(substreams, m) != {} {
      TotalSplits(substreams, {m}, m);
      assert {m} - {m} == {};
      AddLaws(CountersOf(substreams, m), ZERO, ZERO);
    }
  }

  lemma CountedIsSource(substreams: Substreams, r: Substreams, s: Ssrc)
    requires Referencing(substreams) && IsMerged(substreams, substreams.Keys, r)
    ensures s in Sources(substreams, r.Keys) <==> Counted(substreams, s)
  {
    if Counted(substreams, s) {
      var m := if substreams[s].kind == Media then s else substreams[s].referencedMediaSsrc.value;
      assert MergedAt(substreams, substreams.Keys, r, m);
      if substreams[s].kind != Media {
        assert MovesTo(substreams, s, m) && s in MovedTo(substreams, substreams.Keys, m);
      }
    }
  }

  /* ---- each count by itself ---- */

  datatype Part = Transmitted | Retransmitted | Fec
  datatype Unit = HeaderBytes | PayloadBytes | PaddingBytes | Packets

  ghost function PartOf(c: StreamDataCounters, part: Part): RtpPacketCounter {
    match part
    case Transmitted => c.transmitted
    case Retransmitted => c.retransmitted
    case Fec => c.fec
  }

  ghost function UnitOf(c: RtpPacketCounter, unit: Unit): nat {
    match unit
    case HeaderBytes => c.headerBytes
    case PayloadBytes => c.payloadBytes
    case PaddingBytes => c.paddingBytes
    case Packets => c.packets
  }

  /** One of the twelve counts. */
  ghost function Count(c: StreamDataCounters, part: Part, unit: Unit): nat {
    UnitOf(PartOf(c, part), unit)
  }

  lemma CountsOfAdd(a: StreamDataCounters, b: StreamDataCounters, part: Part, unit: Unit)
    ensures Count(Add(a, b), part, unit) == Count(a, part, unit) + Count(b, part, unit)
    ensures Count(ZERO, part, unit) == 0
  {
    assert PartOf(Add(a, b), part) == AddCounter(PartOf(a, part), PartOf(b, part));
  }

  ghost function CountAt(substreams: Substreams, s: Ssrc, part: Part, unit: Unit): nat {
    if s in substreams then Count(substreams[s].rtpStats, part, unit) else 0
  }

  ghost function SumOfCounts(substreams: Substreams, which: set<Ssrc>, part: Part, unit: Unit): nat {
    if which == {} then 0 else
      var s :| s in which;
      CountAt(substreams, s, part, unit) + SumOfCounts(substreams, which - {s}, part, unit)
  }

  lemma CountOfSplit(substreams: Substreams, which: set<Ssrc>, s: Ssrc, part: Part, unit: Unit)
    requires s in which
    ensures Count(Total(substreams, which), part, unit) ==
              CountAt(substreams, s, part, unit) + Count(Total(substreams, which - {s}), part, unit)
  {
    TotalSplits(substreams, which, s);
    CountsOfAdd(CountersOf(substreams, s), Total(substreams, which - {s}), part, unit);
  }

  lemma ChosenFirst(substreams: Substreams, which: set<Ssrc>, part: Part, unit: Unit) returns (s: Ssrc)
    requires which != {}
    ensures s in which
    ensures SumOfCounts(substreams, which, part, unit) ==
              CountAt(substreams, s, part, unit) + SumOfCounts(substreams, which - {s}, part, unit)
  {
    s :| s in which && SumOfCounts(substreams, which, part, unit) ==
      CountAt(substreams, s, part, unit) + SumOfCounts(substreams, which - {s}, part, unit);
  }

  lemma {:induction false} CountsOfTotal(substreams: Substreams, which: set<Ssrc>, part: Part, unit: Unit)
    ensures Count(Total(substreams, which), part, unit) == SumOfCounts(substreams, which, part, unit)
    decreases |which|
  {
    if which == {} {
      CountsOfAdd(ZERO, ZERO, part, unit);
    } else {
      var s := ChosenFirst(substreams, which, part, unit);
      CountOfSplit(substreams, which, s, part, unit);
      CountsOfTotal(substreams, which - {s}, part, unit);
    }
  }

  ghost function ReferringTo(substreams: Substreams, m: Ssrc): set<Ssrc> {
    set s | s in substreams && substreams[s].kind != Media && substreams[s].referencedMediaSsrc == Some(m)
  }

  /** There is an entry for every media substream, and for every other one that is referred to; it is a media entry,
      with the reference of the media substream. */
  lemma EntriesExactly(substreams: Substreams, r: Substreams, m: Ssrc)
    requires Referencing(substreams) && IsMerged(substreams, substreams.Keys, r)
    ensures m in r <==> m in substreams && (substreams[m].kind == Media || ReferringTo(substreams, m) != {})
    ensures m in r ==>
              && r[m].kind == Media
              && r[m].referencedMediaSsrc == if substreams[m].kind == Media then substreams[m].referencedMediaSsrc else None
  {
    assert MergedAt(substreams, substreams.Keys, r, m);
    if m in substreams {
      assert MovedTo(substreams, substreams.Keys, m) == ReferringTo(substreams, m);
    }
  }

  /** Each count of an entry is that of the media substream plus those of the others that refer to it. */
  lemma EntryIsTheSum(substreams: Substreams, r: Substreams, m: Ssrc, part: Part, unit: Unit)
    requires IsMerged(substreams, substreams.Keys, r) && m in r
    ensures Count(r[m].rtpStats, part, unit) ==
              (if m in substreams && substreams[m].kind == Media then Count(substreams[m].rtpStats, part, unit) else 0) +
              SumOfCounts(substreams, ReferringTo(substreams, m), part, unit)
  {
    assert MergedAt(substreams, substreams.Keys, r, m);
    var moved := MovedTo(substreams, substreams.Keys, m);
    CountsOfTotal(substreams, moved, part, unit);
    CountsOfAdd(Own(substreams, m).rtpStats, Total(substreams, moved), part, unit);
    assert moved == ReferringTo(substreams, m);
  }

  /** Merging neither loses nor invents a count: all entries together hold the counters of exactly the
      substreams that are media or refer to a substream that is present, count by count. */
  lemma MergeConserves(substreams: Substreams, r: Substreams, part: Part, unit: Unit)
    requires Referencing(substreams) && IsMerged(substreams, substreams.Keys, r)
    ensures SumOfCounts(r, r.Keys, part, unit) ==
              SumOfCounts(substreams, (set s | s in substreams && Counted(substreams, s)), part, unit)
  {
    CountsOfTotal(r, r.Keys, part, unit);
    CountsOfTotal(substreams, (set s | s in substreams && Counted(substreams, s)), part, unit);
    MergeConservesTotal(substreams, r);
  }

  lemma MergeConservesTotal(substreams: Substreams, r: Substreams)
    requires Referencing(substreams) && IsMerged(substreams, substreams.Keys, r)
    ensures Total(r, r.Keys) == Total(substreams, set s | s in substreams && Counted(substreams, s))
  {
    EntriesSumToSources(substreams, r, r.Keys);
    var counted := set s | s in substreams && Counted(substreams, s);
    forall s ensures s in Sources(substreams, r.Keys) <==> s in counted {
      CountedIsSource(substreams, r, s);
    }
    assert Sources(substreams, r.Keys) == counted;
  }
}
