# Verification of the peer-connection layer

Dafny models of the parts of this WebRTC-style peer-connection library that hold state, and proofs of
what they promise. Verify everything with `dafny verify dfyconfig.toml`.

| file | models |
|---|---|
| `TransportCollection.dfy` | `JsepTransportCollection`: ownership of transports, commit and rollback, the map-change listener |
| `Bundle.dfy` | `BundleManager` and the part of `ContentGroup` it uses |
| `BundleRuns.dfy` | every run of a `BundleManager` |
| `VideoCodecs.dfy` | payload-type allocation and `MapCodecs` |
| `ReceiveCodecs.dfy` | `NonFlexfecReceiveCodecsHaveChanged` |
| `Simulcast.dfy` | the simulcast table, its interpolation, the resolution ladder, the boost |
| `EncoderStreams.dfy` | `EncoderStreamFactory` for simulcast: per-layer configuration, stable sort, patch |
| `RtcpMux.dfy` | `RtcpMuxFilter`, and two filters at the ends of one negotiation |
| `DtlsKeys.dfy` | DTLS role negotiation and the SRTP keys cut out of the exported block |
| `Srtp.dfy` | `SrtpSession`, `SrtpTransport` and the global libsrtp use count |
| `SrtpUsage.dfy` | all SRTP transports of a process on one libsrtp, over every run |
| `DtlsSrtp.dfy` | `DtlsSrtpTransport` |
| `UnhandledPackets.dfy` | `UnhandledPacketsBuffer` against the queue it stands for |
| `RtpExtensions.dfy` | validation and filtering of header extensions |
| `StatsMerge.dfy` | merging of outbound statistics |
| `SendStreams.dfy` | the send-side SSRC index |
| `Sorting.dfy`, `Sequences.dfy`, `Sdp.dfy`, `Wrappers.dfy` | `std::sort` by its contract, sequences and multisets, description types, options |

Objects are classes whose methods are proved against specification functions on values (`View`, `Groups`,
`KeysOf`, `Added`, ...); the properties over whole runs are lemmas about those functions. Calls into code
outside the repository are parameters (what libsrtp answers, the DTLS exporter, key lengths, trials) or
nondeterministic (what the map-change listener returns). Iteration over a `std::map` is modelled in
arbitrary order, so the results hold for every order.

## What the proofs show beyond the happy path

- `RegisterTransport` over a name whose transport is still needed leaves a dangling reference, for which two
  registrations with a commit between them are enough; ownership survives exactly when the name is free.
- `DestroyAllTransports` tells the listener about owner names only, so it destroys a transport that the
  listener still knows exactly when some mid is not an owner name.
- An offer may make two bundle groups overlap; it keeps them disjoint exactly when no group it replaces
  shares a mid with a group it leaves alone, which holds for every offer that straddles no two groups. On every
  run of such offers the index of the manager says what its groups say.
- The comment on the allocator says [96, 127]; the code hands out 96..126.
- `MapCodecs` takes the RTX payload type from the last RTX codec for a video codec and `rtx_time` from the last
  one to give a time. They are one codec exactly when that last codec gives a time or no earlier one does.
- A simulcast ladder of a given number of layers climbs for every picture exactly when the rate factor of the
  base layer does not lift the highest rate of the table by a whole bit per second and the size experiment is off
  or its exponent is at least the number of layers less one. With four temporal layers whose first has a quarter
  of the rate the factor is 1.6.
- The four-way fix-up orders min, target and max exactly for the configurations of `ConfigFits`; the patch
  of the first active layer keeps min below max, but keeps min below target only under an exact condition.
- The buffer of unhandled packets is the queue of the newest 50 at every point of a run exactly when no
  backfill that kept between 1 and 49 packets is followed by enough packets to fill the ring again; it is then
  out of order until 50 more have come.
- A DTLS answerer that announces the offerer's own role, so that both ends take it, gets through exactly when
  it already has the opposite role.
- SRTCP keys are installed only when keying SRTP has just failed, since the RTCP setup returns as soon as
  SRTP is active. A failed `SetRtcpParams` leaves a session behind, and no later `SetRtcpParams` replaces it until a
  reset: if SRTP is keyed afterwards, RTCP packets of the active transport find a session without a context.
- An `SrtpSession` that counted itself but got no context counts again on the next `SetKey`; `SrtpTransport`
  never gives it that second call.
- A statistics reference to an RTX or FlexFEC substream creates an entry for that substream.
- `toffset` offered both encrypted and plain survives once beside abs-send-time.
- The filtered extension list is determined exactly when different extensions share a (uri, encrypt) pair only
  where the reduction erases that pair; otherwise it is at the mercy of `std::sort`.

## Model

| member | source | states |
|---|---|---|
| TransportCollection.JsepTransportCollection.TransportInUse | jsep_transport_collection.cc:305-314 | true exactly when some mid maps to the transport |
| TransportCollection.JsepTransportCollection.TransportNeededForRollback | jsep_transport_collection.cc:316-325 | true exactly when the stable map names the transport |
| TransportCollection.JsepTransportCollection.IsConsistent | jsep_transport_collection.cc:370-381 | true exactly when each owned transport is in the current or the stable map |
| TransportCollection.JsepTransportCollection.MaybeDestroyJsepTransport | jsep_transport_collection.cc:327-350 | leaves exactly the referenced owners; the exact events (state change, destruction) it causes |
| TransportCollection.JsepTransportCollection.DestroyUnusedTransports | jsep_transport_collection.cc:352-368 | leaves exactly the referenced owners, and signals when it destroyed one |
| TransportCollection.JsepTransportCollection.SetTransportForMid | jsep_transport_collection.cc:231-255 | the mid maps to the transport, all else as before; the owners left are those some mid still has; exactly one announcement, or none if the mapping was there; result is the listener's verdict; a transport leaving the active set is signalled |
| TransportCollection.JsepTransportCollection.RegisterTransport | jsep_transport_collection.cc:165-172 | the same, plus ownership; stays consistent; the listener knows the new map, and no transport dies under it when the name is free |
| TransportCollection.JsepTransportCollection.RemoveTransportForMid | jsep_transport_collection.cc:257-271 | the mid is gone, every other mapping and the stable map stay; the owners left are those some mid still has; exactly one announcement, that the mid is gone; listener in step; signalled |
| TransportCollection.JsepTransportCollection.AnnounceRemovals | jsep_transport_collection.cc:276-281 | first rollback loop: an accepting listener loses exactly the mids the stable map lacks |
| TransportCollection.JsepTransportCollection.AnnounceRestores | jsep_transport_collection.cc:282-288 | second rollback loop: an accepting listener then holds exactly the stable map; a refusal stops the calls |
| TransportCollection.JsepTransportCollection.RollbackTransports | jsep_transport_collection.cc:273-296 | active map is the stable one, the owners left are those it has; result true exactly when every announcement was accepted, then the listener is in step; always signals |
| TransportCollection.JsepTransportCollection.CommitTransports | jsep_transport_collection.cc:298-303 | stable map is the active one, the owners left are those it has, listener in step |
| TransportCollection.JsepTransportCollection.DestroyAllTransports | jsep_transport_collection.cc:194-201 | only the owners are cleared; a transport dies while the listener refers to it exactly when some mid is no owner name |
| TransportCollection.RegisterKeepsOwnership | jsep_transport_collection.cc:165-172 | ownership and references stay in agreement exactly when the overwritten name is not needed |
| TransportCollection.RegisterOverNeededNameDangles | jsep_transport_collection.cc:170-170 | register, commit, register another transport under the name: from the empty state, and the stable mapping dangles |
| TransportCollection.StepKeepsValid | jsep_transport_collection.cc:165-303 | every operation keeps ownership and references in agreement, both ways, each transport under one name |
| TransportCollection.RunKeepsValid | jsep_transport_collection.cc:165-303 | the same over every run |
| TransportCollection.CommitOwnsExactlyActive | jsep_transport_collection.cc:298-303 | a commit leaves exactly the active transports owned |
| TransportCollection.RollbackUndoesRun | jsep_transport_collection.cc:273-296 | rollback after any uncommitted run gives back the whole state, owners included |
| TransportCollection.RollbackRestoresCommit | jsep_transport_collection.cc:273-303 | commit, any run, rollback is commit |
| TransportCollection.DestroyAllDangles | jsep_transport_collection.cc:194-201 | the consistency check passes afterwards, yet references dangle exactly unless both maps were empty |
| TransportCollection.BundledMidOutlivesItsTransport | jsep_transport_collection.cc:194-201 | register one mid, set a second one on its transport, destroy all: reachable, and the second mid dangles |
| Bundle.ContentGroup.Copy | jsep_transport_collection.cc:51-52 | a copy has the same semantics and names |
| Bundle.ContentGroup.Assign | jsep_transport_collection.cc:69-69 | assignment copies semantics and names |
| Bundle.ContentGroup.RemoveContentName | jsep_transport_collection.cc:115-115 | removes the first occurrence, and says whether there was one |
| Bundle.BundleManager.GetBundleGroups | jsep_transport_collection.cc:49-50 | the groups with BUNDLE semantics, in order |
| Bundle.BundleManager.Update | jsep_transport_collection.cc:33-81 | an answer or max-bundle replaces all groups by copies, an offer merges, a provisional answer changes nothing; the index matches the groups again |
| Bundle.BundleManager.MergeOffer | jsep_transport_collection.cc:56-77 | the offer loop, with claims read off the index of before the offer |
| Bundle.BundleManager.ReplaceMatchingGroup | jsep_transport_collection.cc:65-76 | one offered group overwrites the group of its first known mid |
| Bundle.BundleManager.RefreshEstablishedBundleGroupsByMid | jsep_transport_collection.cc:156-163 | the index maps a mid exactly when a group lists it, to the last such group |
| Bundle.BundleManager.DeleteMid | jsep_transport_collection.cc:101-118 | removes the mid from group and index; index and groups still agree exactly when no group lists the mid any more, which holds where groups are disjoint and the group listed it; they stay disjoint |
| Bundle.BundleManager.DeleteGroup | jsep_transport_collection.cc:120-135 | the group and all its mids are gone; on disjoint groups index and groups still agree |
| Bundle.BundleManager.DeleteMids | jsep_transport_collection.cc:130-133 | the loop over a copy of the list that it shortens: each erase finds its key |
| Bundle.BundleManager.DeleteGroupFindsEveryMid | jsep_transport_collection.cc:120-135 | where index and groups agree, no erase of DeleteGroup misses its key |
| Bundle.BundleManager.Commit | jsep_transport_collection.cc:147-154 | the stable groups are fresh deep copies of the current ones |
| Bundle.BundleManager.Rollback | jsep_transport_collection.cc:137-145 | the current groups have the contents of the last commit, and the index matches |
| Bundle.BundleManager.OneFirstMidPerGroup | jsep_transport_collection.cc:88-94 | each non-empty group has exactly one first mid |
| Bundle.AfterOfferIsLastClaim | jsep_transport_collection.cc:63-76 | after an offer a group is the last offered group that claims it, or unchanged |
| Bundle.FirstKnownMidDecides | jsep_transport_collection.cc:66-75 | an offered group claims the group of its first known mid, whatever its later mids say |
| Bundle.OfferKeepsWellFormed | jsep_transport_collection.cc:56-77 | an offer keeps groups disjoint exactly when no replacement shares a mid with a group left alone |
| Bundle.NoStraddleKeepsWellFormed | jsep_transport_collection.cc:58-62 | enough for that: no offered group meets two existing ones (RFC 8843, section 7.3.2) |
| Bundle.StraddlingOfferOverlaps | jsep_transport_collection.cc:63-76 | a straddling offer that makes two groups overlap |
| Bundle.NowhereElse | jsep_transport_collection.cc:115-115 | a mid removed from the group that lists it is listed nowhere, where groups are disjoint |
| Bundle.IndexShrinks | jsep_transport_collection.cc:115-117 | removing a mid from one group and the index fits exactly when no group lists it |
| Bundle.IndexDropsGroup | jsep_transport_collection.cc:130-134 | removing a group and its mids keeps index and groups in agreement |
| Bundle.IndexGrows | jsep_transport_collection.cc:158-162 | indexing the next group extends the agreement by that group |
| BundleRuns.RunIsSafe | jsep_transport_collection.cc:33-163 | over every run whose offers keep groups disjoint (exactly those) and descriptions are disjoint, groups stay disjoint and duplicate-free, and a rollback restores the last commit |
| BundleRuns.RunManager | jsep_transport_collection.cc:33-163 | after any such run the manager holds what the run over values says, and a mid is in its index exactly when a group lists it, and then with that group |
| BundleRuns.Perform | jsep_transport_collection.cc:33-163 | each call does to the contents what it does as a value, and keeps groups disjoint and the index in agreement |
| BundleRuns.BundleNamesKeepOrder | jsep_transport_collection.cc:49-62 | every group with BUNDLE semantics of a description counts, in order |
| BundleRuns.BundleNamesAreListed | jsep_transport_collection.cc:49-62 | and no other group does |
| BundleRuns.SoundIndex | jsep_transport_collection.cc:83-87 | looking a mid up finds the one group that lists it, and nothing where none does |
| VideoCodecs.GetPayloadTypesAndDefaultCodecs | engine/webrtc_video_engine.cpp:137-239 | the loop computes the allocation of the advertised formats; nothing for no factory or no format |
| VideoCodecs.TakePayloadType | engine/webrtc_video_engine.cpp:206-213 | the id was free and is the least free one of its range, no other id is taken, and the low range is used exactly for the new codecs or when the high one is exhausted |
| VideoCodecs.AllocatedIdsAreDistinct | engine/webrtc_video_engine.cpp:176-239 | all payload types are distinct, in [35,63] or [96,126] |
| VideoCodecs.AllocatedCodecsArePaired | engine/webrtc_video_engine.cpp:217-236 | each codec that is not FEC, except possibly the last, is followed by its own RTX codec, and there are no other RTX codecs |
| VideoCodecs.AllocatesAPrefix | engine/webrtc_video_engine.cpp:187-238 | formats are taken in order with their parameters, and one is left out only once [35,63] is used up |
| VideoCodecs.RedAndUlpfecComeLast | engine/webrtc_video_engine.cpp:156-157 | what is advertised is the supported formats, then RED, then ULPFEC, unless [35,63] is used up |
| VideoCodecs.LowRangeIsForNewCodecs | engine/webrtc_video_engine.cpp:189-236 | FlexFEC, AV1 and AV1X, with their RTX codecs, get ids up to 63; any other codec gets one only after 96..126 are all taken |
| VideoCodecs.GatherCodecs | engine/webrtc_video_engine.cpp:3336-3407 | the first loop rejects exactly repeated payload types and bad RTX targets, and gathers the maps it should |
| VideoCodecs.CheckTargets | engine/webrtc_video_engine.cpp:3413-3436 | accepts exactly when each RTX target is a video or RED codec; finds the RTX of RED |
| VideoCodecs.MapCodecs | engine/webrtc_video_engine.cpp:3321-3460 | the mapped settings when the list is acceptable, otherwise nothing |
| VideoCodecs.SettingsAreOfTheirCodecs | engine/webrtc_video_engine.cpp:3346-3457 | in every result the RED, ULPFEC and FlexFEC payload types are those of the first codec of their own kind in the list, both RTX payload types those of the last RTX codec for the payload type they serve, and the time, at most 1000, that of the last to give one; each -1 if there is none |
| VideoCodecs.RtxServesVideoOrRed | engine/webrtc_video_engine.cpp:3413-3431 | in an accepted list no RTX codec names a ULPFEC, FlexFEC or RTX codec |
| VideoCodecs.VideosKeepOrder | engine/webrtc_video_engine.cpp:3401-3405 | every video codec is in the result, in input order |
| VideoCodecs.VideosAreVideos | engine/webrtc_video_engine.cpp:3401-3405 | every result is a video codec of the list, at its place |
| VideoCodecs.RtxForFinds | engine/webrtc_video_engine.cpp:3383-3399 | an RTX payload type is found exactly when the list has an RTX codec for it |
| VideoCodecs.RtxIsNotShared | engine/webrtc_video_engine.cpp:3397-3397 | one RTX payload type serves one payload type |
| VideoCodecs.MappedSettingsAreSound | engine/webrtc_video_engine.cpp:3438-3457 | for any accepted list: distinct codecs, no RTX payload type shared by two codecs or with RED, or equal to a video codec's |
| VideoCodecs.MappedTimeIsSound | engine/webrtc_video_engine.cpp:3447-3455 | rtx_time is in 1..1000 exactly when some RTX codec for the video codec gives a time, otherwise -1 |
| VideoCodecs.TimeIsOfTheLastGiver | engine/webrtc_video_engine.cpp:3393-3396 | the time is that of the last RTX codec to give one |
| VideoCodecs.LastRtxWins | engine/webrtc_video_engine.cpp:3393-3398 | the RTX payload type is that of the last RTX codec for the video codec |
| VideoCodecs.TimeIsOfTheSameCodecExactly | engine/webrtc_video_engine.cpp:3393-3398 | payload type and time come from one RTX codec exactly when the last one gives a time or no earlier one does |
| VideoCodecs.TimeOfAnotherCodec | engine/webrtc_video_engine.cpp:3393-3398 | an accepted list that pairs one RTX codec with the time of another |
| VideoCodecs.FirstOfIsFirst | engine/webrtc_video_engine.cpp:3347-3381 | the first RED, ULPFEC and FlexFEC codec wins, where -1 is no RED or ULPFEC payload type |
| VideoCodecs.NothingSeen | engine/webrtc_video_engine.cpp:3347-3381 | without one, -1 is reported |
| VideoCodecs.PairedListIsAccepted | engine/webrtc_video_engine.cpp:3413-3431 | every RTX target of a paired list is found |
| VideoCodecs.PairedListIsMapped | engine/webrtc_video_engine.cpp:3321-3460 | each video codec of a paired list comes back in order with the RTX behind it and no time |
| VideoCodecs.AllocatedListIsMapped | engine/webrtc_video_engine.cpp:137-239 | allocator and mapper together, for every list of formats: accepted, ids distinct and in range, each video codec tied to exactly its own RTX |
| ReceiveCodecs.NonFlexfecReceiveCodecsHaveChanged | engine/webrtc_video_engine.cpp:795-818 | unchanged lists are permutations up to FlexFEC, and every such permutation is unchanged where the ids decide |
| ReceiveCodecs.SortedListsDecide | engine/webrtc_video_engine.cpp:806-817 | comparing sorted lists decides permutation when the ids decide |
| ReceiveCodecs.UndecidedListMayCountAsChanged | engine/webrtc_video_engine.cpp:806-817 | where they do not, a list can count as changed from itself |
| ReceiveCodecs.MappedIdsDiffer | engine/webrtc_video_engine.cpp:3339-3344 | what MapCodecs returns has unique payload types |
| ReceiveCodecs.PermutationsHaveTheSameSettings | engine/webrtc_video_engine.cpp:802-817 | with unique ids, lists are permutations up to FlexFEC exactly when each has the settings of the other but for the FlexFEC payload type |
| ReceiveCodecs.ReceiveCodecsChange | engine/webrtc_video_engine.cpp:1212-1215 | for the mapped lists the receive side compares: changed exactly when one has settings that the other lacks, FlexFEC aside |
| Simulcast.GetSimulcastFormats | engine/simulcast.cpp:101-141 | in both modes the table falls strictly in pixels to 0, and no rate rises going down |
| Simulcast.FindSimulcastFormatIndex | engine/simulcast.cpp:178-191 | the first row no larger than the picture; there always is one |
| Simulcast.InterpolateSimulcastFormat | engine/simulcast.cpp:207-236 | the interpolated row, which the next three rows describe |
| Simulcast.InterpolationIsLinear | engine/simulcast.cpp:215-235 | for every picture between two rows: max, target and min lie on the straight lines between them, and the layers are those of the upper row exactly when the picture lies less than the given share of the gap below it, a tenth by default |
| Simulcast.LargePicturesGetTheTopRow | engine/simulcast.cpp:213-216 | from 1920x1080 on, the top row as it is |
| Simulcast.SmallPicturesKeepTheirRates | engine/simulcast.cpp:131-139 | below 320x180 the rates of that row, without low-resolution interpolation |
| Simulcast.InterpolateRows | engine/simulcast.cpp:215-235 | the interpolation once the row is found, for any sorted table |
| Simulcast.InterpolateIsMonotone | engine/simulcast.cpp:47-51 | interpolation lies between its ends and falls with the rate |
| Simulcast.ColumnIsMonotone | engine/simulcast.cpp:217-233 | across all segments more pixels never get a lower value |
| Simulcast.InterpolatedIsMonotone | engine/simulcast.cpp:246-271 | max, target and min bitrate grow with the picture in both modes |
| Simulcast.InterpolatedTargetIsBelowMax | engine/simulcast.cpp:207-236 | target never exceeds max |
| Simulcast.NormalizedSizeIsDivisible | engine/simulcast.cpp:193-205 | the largest size not above the given one that the power divides: 2^(layers-1), or that of the experiment for larger pictures |
| Simulcast.LayerSizesDouble | engine/simulcast.cpp:441-442 | each layer is exactly double the one below, when the size experiment is off or clears at least as many bits as the ladder needs |
| Simulcast.HalvedIsQuotient | engine/simulcast.cpp:441-442 | halving k times divides by 2^k |
| Simulcast.LayerSizeIsQuotient | engine/simulcast.cpp:193-205 | the halving loop computes that division |
| Simulcast.FillLayer | engine/simulcast.cpp:386-437 | what the loop body writes, and that it writes one layer only |
| Simulcast.GetNormalSimulcastLayers | engine/simulcast.cpp:365-455 | all layers, each from the table row of its own size |
| Simulcast.NormalLayerShape | engine/simulcast.cpp:374-445 | width from width and height from height: cut to a multiple of the power of two, divided by 2 for every layer above; without the experiment the quotient by 2^(layers-1) times 2^s; frame rate, temporal layers, QP and priority as given |
| Simulcast.NormalLayerRates | engine/simulcast.cpp:394-437 | min, target and max of a layer are the values on the lines between the rows around it, rounded down, target and max of the base layer times the factor and rounded down again, none below min |
| Simulcast.NormalLayerIsOrdered | engine/simulcast.cpp:433-437 | min <= target <= max in every layer, whatever the rate factor |
| Simulcast.LayersFormALadder | engine/simulcast.cpp:365-455 | under the condition of the next row sizes double and no bitrate falls going up |
| Simulcast.LadderClimbsExactly | engine/simulcast.cpp:365-455 | for each number of layers from 2: the ladder climbs for all pictures exactly when the rate factor lifts no table rate by a whole bit per second, and the size experiment is off or its exponent is at least the number of layers less one |
| Simulcast.LargerFactorBreaksTheLadder | engine/simulcast.cpp:403-427 | for any number of layers, any larger factor breaks the ladder of a square picture of 2^(layers+10) |
| Simulcast.ExperimentBreaksTheLadder | engine/simulcast.cpp:198-204 | for any number of layers and any smaller exponent e, a square picture of 3*2^e has a layer of 3 above one of 1 |
| Simulcast.BaseLayerKeepsItsShare | engine/simulcast.cpp:403-421 | the factor gives the first temporal layer the rate it has among three, 0.4/0.6 of it with a heavy base |
| Simulcast.TemporalLayersClimbExactly | engine/simulcast.cpp:409-421 | three temporal layers give a climbing factor, any other number exactly under a condition on the shares of the first layer |
| Simulcast.FourTemporalLayersFall | engine/simulcast.cpp:415-420 | four layers with a quarter for the first do not |
| Simulcast.LimitSimulcastLayerCount | engine/simulcast.cpp:301-330 | the largest number of layers that is asked for and, under the limit, needed or allowed by the picture |
| Simulcast.InterpolatedLayersPositive | engine/simulcast.cpp:224-227 | a row always allows at least one layer |
| Simulcast.GetTotalMaxBitrate | engine/simulcast.cpp:288-299 | targets of the lower layers plus the maximum of the highest, which the next row describes |
| Simulcast.TotalMaxGrows | engine/simulcast.cpp:288-299 | a new highest layer adds its maximum, and the one below counts with its target from then on |
| Simulcast.BoostMaxSimulcastLayer | engine/simulcast.cpp:273-286 | only the highest maximum changes |
| Simulcast.BoostSpendsTheLimit | engine/simulcast.cpp:273-286 | afterwards the layers use the limit, unless they used more before |
| EncoderStreams.FindRequiredActiveLayers | engine/webrtc_video_engine.cpp:402-411 | one more than the first active index, 0 if none is active |
| EncoderStreams.ConfigureLayer | engine/webrtc_video_engine.cpp:3712-3774 | activity, temporal layers, frame rate, size and bitrates of one layer; the others untouched |
| EncoderStreams.ConfigureBitrates | engine/webrtc_video_engine.cpp:3733-3774 | the configured bitrates with the four-way fix-up |
| EncoderStreams.IsScaleFactorsPowerOfTwo | engine/webrtc_video_engine.cpp:92-104 | every scale factor, raised to 1, is a power of two |
| EncoderStreams.OnlyPowersOfTwo | engine/webrtc_video_engine.cpp:92-104 | what passes the test is a power of two |
| EncoderStreams.AnyScale | engine/webrtc_video_engine.cpp:3691-3694 | some layer has a scale factor |
| EncoderStreams.FindShape | engine/webrtc_video_engine.cpp:3691-3709 | whether layers are scaled, and from which size |
| EncoderStreams.DefaultScalesChangeNothing | engine/webrtc_video_engine.cpp:3723-3732 | factors 2^(n-1) down to 1 give each layer of a full ladder the size it has without them, or the minimum |
| EncoderStreams.CheckedOutputIsOrderedExactly | engine/media_engine.cpp:103-111 | the same end-to-end result for every configuration without explicit targets that passes the parameter check, with no other condition on the layers |
| EncoderStreams.FixUpOrdersExactly | engine/webrtc_video_engine.cpp:3733-3774 | min <= target <= max exactly for configurations that fit |
| EncoderStreams.ConfiguredRates | engine/webrtc_video_engine.cpp:3733-3774 | for every configuration that fits: configured bounds are kept, an unset bound moves only as far as the set one pushes it, and the target is the rate between the bounds nearest to the configured one, or to three quarters of the maximum |
| EncoderStreams.NoTargetFits | engine/media_engine.cpp:79-123 | without explicit target, min <= max as checked is enough, and configured min and max are kept |
| EncoderStreams.ConfigureLayers | engine/webrtc_video_engine.cpp:3711-3779 | every layer configured; whether the highest has a configured maximum |
| EncoderStreams.StableSortByMax | engine/webrtc_video_engine.cpp:3788-3794 | a permutation ordered by maximum, ties by position |
| EncoderStreams.InsertKeepsOrder | engine/webrtc_video_engine.cpp:3792-3794 | inserting the next layer keeps the stable order |
| EncoderStreams.PatchFirstActive | engine/webrtc_video_engine.cpp:3796-3811 | the first active layer takes the minimum of an inactive lowest one, nothing else changes |
| EncoderStreams.PatchedExactly | engine/webrtc_video_engine.cpp:3788-3811 | the minimum goes from the lowest layer, if inactive, to the lowest active one, by maximum and then position; nothing else changes |
| EncoderStreams.CreateSimulcastStreams | engine/webrtc_video_engine.cpp:3665-3814 | ladder, configuration, boost and patch in order |
| EncoderStreams.OutputCount | engine/webrtc_video_engine.cpp:3678-3682 | the number of output layers is the largest that is asked for and, under the limit, needed or allowed |
| EncoderStreams.OutputSize | engine/webrtc_video_engine.cpp:3723-3732 | for every picture, configuration and output layer: its width comes from the width and its height from the height, by the ladder without scale factors, otherwise the largest integer whose product with its own factor does not exceed the base, or 16 |
| EncoderStreams.DefaultScalesKeepOutputSizes | engine/webrtc_video_engine.cpp:3696-3732 | factors 2^(n-1) down to 1 give the output the sizes of a full ladder, or 16, and so those it has without factors where no layer is cut off |
| EncoderStreams.OutputRateAndTemporalLayers | engine/webrtc_video_engine.cpp:3713-3722 | frame rate and temporal layers of an output layer are its configured ones, the latter if the codec has any, otherwise those of the ladder |
| EncoderStreams.OutputTarget | engine/webrtc_video_engine.cpp:3733-3774 | the target of an output layer is what its own configuration makes of its own rung |
| EncoderStreams.OutputMax | engine/webrtc_video_engine.cpp:3733-3786 | so is its maximum, save for a highest layer that takes up a limit |
| EncoderStreams.OutputSpendsTheLimit | engine/webrtc_video_engine.cpp:3780-3786 | which makes the layers together use the limit, unless they used more |
| EncoderStreams.OutputMin | engine/webrtc_video_engine.cpp:3796-3811 | so is its minimum, save that the lowest active layer takes that of the lowest layer |
| EncoderStreams.CreateConfiguredLayers | engine/webrtc_video_engine.cpp:3678-3782 | the layers before the boost, and whether there is one |
| EncoderStreams.CreateBaseLayers | engine/webrtc_video_engine.cpp:3678-3688 | the limited ladder, with the experimental minimum on layer 0 |
| EncoderStreams.CountBounds | engine/simulcast.cpp:318-327 | at least one layer, at most those asked for, and enough for the first active one |
| EncoderStreams.SomeLayerIsActive | engine/webrtc_video_engine.cpp:402-411 | an output layer is active whenever one of the first configured layers is |
| EncoderStreams.OutputActive | engine/webrtc_video_engine.cpp:3712-3712 | each output layer is as active as its configuration |
| EncoderStreams.ConfiguredLayersAreOrdered | engine/webrtc_video_engine.cpp:3711-3779 | min <= target <= max in every configured layer |
| EncoderStreams.PatchKeepsMinBelowMax | engine/webrtc_video_engine.cpp:3796-3811 | min and target stay below max; min <= target survives exactly under the stated condition |
| EncoderStreams.PatchCanPassTarget | engine/webrtc_video_engine.cpp:3796-3811 | a configuration whose output has min above target, for every picture and setting |
| EncoderStreams.OutputIsOrderedExactly | engine/webrtc_video_engine.cpp:3665-3814 | end to end, no output layer has min or target above max, and min <= target <= max holds in all exactly when the heir of the lowest minimum can pay for it |
| RtcpMux.RtcpMuxFilter.SetOffer | rtcp_mux_filter.cpp:46-60 | verdict and new state of an offer |
| RtcpMux.RtcpMuxFilter.SetProvisionalAnswer | rtcp_mux_filter.cpp:62-96 | verdict and new state of a provisional answer |
| RtcpMux.RtcpMuxFilter.SetAnswer | rtcp_mux_filter.cpp:98-120 | verdict and new state of a final answer |
| RtcpMux.RtcpMuxFilter.SetActive | rtcp_mux_filter.cpp:42-44 | active at once, the offer flag kept |
| RtcpMux.SetRtcpMux | jsep_transport.cpp:458-490 | which transition, when mux is activated, and what the transport is told |
| RtcpMux.FailureChangesNothing | rtcp_mux_filter.cpp:46-120 | a refused description leaves the filter alone |
| RtcpMux.VerdictsExactly | rtcp_mux_filter.cpp:46-134 | while inactive, exactly these are accepted: an offer when none stands or over one's own, an answer to the other side's offer that asks for mux only if the offer did |
| RtcpMux.ProvisionalAnswerIsUndone | rtcp_mux_filter.cpp:75-89 | a provisional answer with mux and then one without leave the offer as it stood; a final answer without mux ends the exchange |
| RtcpMux.EndpointsAgree | rtcp_mux_filter.cpp:46-134 | on every run two new filters give equal verdicts and stay mirror images with equal offer flags |
| RtcpMux.OpenOfferHasASource | rtcp_mux_filter.cpp:46-96 | an open exchange goes back to an accepted offer, with only provisional answers accepted since |
| RtcpMux.BecomesActive | rtcp_mux_filter.cpp:98-120 | active exactly through an expected, enabled final answer to an enabled offer |
| RtcpMux.FinalAnswerNegotiates | rtcp_mux_filter.cpp:110-111 | the step into the active state completes an enabled offer of the other endpoint |
| RtcpMux.ActiveMeansNegotiated | rtcp_mux_filter.cpp:46-134 | both are fully active only after an enabled offer met an enabled final answer of the other side |
| RtcpMux.ActiveIsFinal | rtcp_mux_filter.cpp:47-50 | no run deactivates an active pair: both ends refuse exactly the descriptions without mux |
| DtlsKeys.RolesAreOpposite | jsep_transport.cpp:614-725 | both ends accept exactly an actpass offer with an active or passive answer, and then take opposite roles, the active one being the client; the offerer alone also takes an answer without a role |
| DtlsKeys.AnswererFitsOffer | jsep_transport.cpp:664-717 | against an active or passive offer, opposite exactly when the announced roles differ; enforced only without a current role |
| DtlsKeys.BothTakeOneRoleExactly | jsep_transport.cpp:664-717 | an answerer that announces the role of the offerer gets through exactly with the opposite current role, and then takes the same role |
| DtlsKeys.EndsAgreeOnDtls | jsep_transport.cpp:561-612 | two ends that both succeed agree whether DTLS is used and on the client, which is the end that announced active |
| DtlsKeys.NoDtlsExactly | jsep_transport.cpp:576-594 | DTLS is given up exactly when a fingerprint is missing, unless a final answer has one that the offer lacks |
| DtlsKeys.CopyBytes | dtls_srtp_transport.cpp:256-262 | memcpy: the stretch is overwritten, the rest kept |
| DtlsKeys.CopyPair | dtls_srtp_transport.cpp:255-262 | a stretch for the client and the next for the server |
| DtlsKeys.SliceKeys | dtls_srtp_transport.cpp:252-262 | the four copies give client and server write key with salt (RFC 5764, section 4.2) |
| DtlsKeys.ExtractParams | dtls_srtp_transport.cpp:214-278 | keys exactly off every failure path; a client sends with the first key and salt of the block and receives with the second, a server the other way round |
| DtlsKeys.BlockIsRecovered | dtls_srtp_transport.cpp:255-262 | the two keys use every byte of the block, each once and in place |
| DtlsKeys.EndsAgreeOnKeys | dtls_srtp_transport.cpp:264-277 | for any block, each end sends with the key the other receives with |
| DtlsKeys.NegotiatedEndsAgreeOnKeys | jsep_transport.cpp:561-725 | from the two descriptions to equal keys |
| Srtp.LibSrtp.IncrementUsageCountAndMaybeInit | srtp_session.cpp:393-419 | counts exactly when libsrtp runs or starts |
| Srtp.LibSrtp.DecrementUsageCountAndMaybeDeinit | srtp_session.cpp:422-432 | one use less |
| Srtp.SrtpSession.DoSetKey | srtp_session.cpp:279-345 | succeeds exactly for a known suite, a key of its length and a consenting libsrtp; a failure keeps the old context |
| Srtp.SrtpSession.SetKey | srtp_session.cpp:347-368 | exact result and count; the count follows the session exactly unless the session had counted itself, has no context, and libsrtp runs or starts |
| Srtp.RefusedTwice | srtp_session.cpp:361-367 | two refused keyings of one session leave a use that nobody undoes |
| Srtp.SrtpSession.UpdateKey | srtp_session.cpp:370-382 | exact result; needs a context, never changes the count |
| Srtp.SrtpSession.Destroy | srtp_session.cpp:54-62 | undoes exactly the session's own count |
| Srtp.SrtpTransport.SetRtpParams | srtp_transport.cpp:280-322 | exact condition of success; both sessions keyed or nothing left; the SRTCP sessions untouched unless both are dropped; use count minus live sessions unchanged |
| Srtp.SrtpTransport.KeyNewPair | srtp_transport.cpp:292-315 | keying two new sessions, with every failure path counted |
| Srtp.SrtpTransport.SetRtcpParams | srtp_transport.cpp:324-356 | once only; exact success and exactly what a failure leaves behind |
| Srtp.SrtpTransport.ResetParams | srtp_transport.cpp:366-373 | all four sessions gone, each undoing its own count |
| Srtp.SrtpTransport.ProtectRtp | srtp_transport.cpp:383-390 | an active transport never reaches the no-session failure when sending |
| Srtp.SrtpTransport.UnprotectRtp | srtp_transport.cpp:421-428 | nor when receiving |
| Srtp.SrtpTransport.ProtectRtcp | srtp_transport.cpp:405-419 | for RTCP the failure is reached exactly while its own session has no context |
| Srtp.SrtpTransport.UnprotectRtcp | srtp_transport.cpp:430-441 | likewise when receiving |
| Srtp.RtcpWithoutContext | srtp_transport.cpp:324-441 | both failures are reached: keying SRTCP refused, then keying SRTP |
| SrtpUsage.RunProcess | srtp_session.cpp:384-432 | on every run of creating, keying, resetting and deleting transports the use count is the number of live sessions over all of them plus the prohibitions, and every transport is valid |
| SrtpUsage.Perform | srtp_session.cpp:384-432 | each step keeps the accounts |
| SrtpUsage.ApplyToOne | srtp_transport.cpp:280-373 | SetRtpParams, SetRtcpParams or ResetParams on one transport keeps the accounts of all |
| SrtpUsage.EachIsValid | srtp_transport.cpp:280-373 | where the accounts hold, each transport is valid by itself |
| SrtpUsage.Delete | srtp_session.cpp:54-62 | a transport that goes takes its counts along |
| DtlsSrtp.DtlsSrtpTransport.SetDtlsTransports | dtls_srtp_transport.cpp:43-84 | active afterwards exactly when keys were kept or keying from the new transport goes through; keys are those of the attached transport |
| DtlsSrtp.DtlsSrtpTransport.Attach | dtls_srtp_transport.cpp:52-81 | a change of transport drops the keys of the old one |
| DtlsSrtp.DtlsSrtpTransport.SetRtcpMuxEnabled | dtls_srtp_transport.cpp:86-91 | enabling mux may activate SRTP, exactly when keying goes through |
| DtlsSrtp.DtlsSrtpTransport.UpdateSendEncryptedHeaderExtensionIds | dtls_srtp_transport.cpp:93-103 | new send ids are stored, and installed by re-keying when the handshake is complete |
| DtlsSrtp.DtlsSrtpTransport.UpdateRecvEncryptedHeaderExtensionIds | dtls_srtp_transport.cpp:105-115 | the same for receive ids |
| DtlsSrtp.DtlsSrtpTransport.MaybeSetupDtlsSrtp | dtls_srtp_transport.cpp:144-154 | active exactly when it was or all is writable and keying goes through, which takes the RTCP transport too unless mux is on; SRTCP sessions are untouched when active, and made when keying RTP failed |
| DtlsSrtp.DtlsSrtpTransport.AllTransportsHaveToBeReady | dtls_srtp_transport.cpp:117-142 | writable, or with the handshake complete, means every transport needed, the RTCP one being needed exactly while mux is off |
| DtlsSrtp.DtlsSrtpTransport.SetupRtpDtlsSrtp | dtls_srtp_transport.cpp:156-181 | exported keys and requested ids installed, or everything dropped, or nothing changed for want of keys |
| DtlsSrtp.DtlsSrtpTransport.SetupRtcpDtlsSrtp | dtls_srtp_transport.cpp:183-212 | nothing while SRTP is active; otherwise the SRTCP pair, exactly when keying goes through, with the keys of the RTCP transport |
| DtlsSrtp.DtlsSrtpTransport.OnDtlsState | dtls_srtp_transport.cpp:311-326 | any report but connected leaves SRTP inactive and empty; connected activates it exactly when keying goes through |
| DtlsSrtp.DtlsSrtpTransport.OnWritableState | dtls_srtp_transport.cpp:328-331 | activates SRTP exactly when keying goes through |
| UnhandledPackets.UnhandledPacketsBuffer.AddPacket | engine/unhandled_packets_buffer.cpp:36-46 | the new buffer and cursor |
| UnhandledPackets.UnhandledPacketsBuffer.BackfillPackets | engine/unhandled_packets_buffer.cpp:49-78 | delivers the claimed packets in ring order, keeps the others in ring order, cursor at 0 |
| UnhandledPackets.BackfillLosesNothing | engine/unhandled_packets_buffer.cpp:62-74 | delivered and kept packets are together exactly the buffer |
| UnhandledPackets.BackfillKeepsOrder | engine/unhandled_packets_buffer.cpp:62-74 | each packet lands behind exactly the earlier packets of its side |
| UnhandledPackets.AddKeepsRefinement | engine/unhandled_packets_buffer.cpp:36-46 | an add keeps the buffer the newest 50, oldest first, whenever the cursor equals the fill level |
| UnhandledPackets.FullAdd | engine/unhandled_packets_buffer.cpp:41-45 | on a full ring an add drops the head of the walk |
| UnhandledPackets.BackfillKeepsRefinement | engine/unhandled_packets_buffer.cpp:76-77 | a backfill keeps the order, and the refinement exactly when it keeps none or all 50 |
| UnhandledPackets.RunIsAQueue | engine/unhandled_packets_buffer.cpp:36-78 | as long as no partly kept ring was refilled, the buffer is the queue |
| UnhandledPackets.FirstRefillIsWrong | engine/unhandled_packets_buffer.cpp:36-78 | the first refill of a partly kept ring puts the buffer out of order |
| UnhandledPackets.RunIsAQueueExactly | engine/unhandled_packets_buffer.cpp:36-78 | on every run that queues no packet twice, the buffer is the queue at every point exactly when no partly kept ring is refilled |
| UnhandledPackets.RunIsBackfillThenAdds | engine/unhandled_packets_buffer.cpp:36-78 | every reachable state is a backfill followed by adds |
| UnhandledPackets.OrderAfterBackfill | engine/unhandled_packets_buffer.cpp:39-45 | the exact order for any number kept and added: straight until full, then rotated by 50 - k |
| UnhandledPackets.OrderIsRightExactlyWhen | engine/unhandled_packets_buffer.cpp:76-76 | the order is oldest first exactly until the ring is full, and again once every slot was overwritten |
| UnhandledPackets.RefilledRingDropsTheWrongPacket | engine/unhandled_packets_buffer.cpp:76-76 | the next overwrite hits slot 50 - k |
| RtpExtensions.ValidateRtpExtensions | engine/webrtc_media_engine.cpp:87-104 | true exactly when ids are in range and unique |
| RtpExtensions.PrecedesIsAnOrder | engine/webrtc_media_engine.cpp:128-132 | the sort comparison is a strict weak order |
| RtpExtensions.StringLessIsLexicographic | engine/webrtc_media_engine.cpp:130-130 | names compare at the first character that differs, and a prefix comes first |
| RtpExtensions.EraseDuplicates | engine/webrtc_media_engine.cpp:136-141 | the first of each run of equal keys |
| RtpExtensions.UniqueClimbs | engine/webrtc_media_engine.cpp:136-141 | on a sorted list that leaves strictly increasing keys |
| RtpExtensions.DiscardRedundantExtensions | engine/webrtc_media_engine.cpp:68-84 | erases the first extension of each lower priority once a higher one was found |
| RtpExtensions.FilterRtpExtensions | engine/webrtc_media_engine.cpp:106-160 | a sort of the supported extensions, reduced on request |
| RtpExtensions.FilteredIsSupported | engine/webrtc_media_engine.cpp:114-123 | unreduced, the result holds exactly the supported extensions, each as often as it came |
| RtpExtensions.FilteredKeysExactly | engine/webrtc_media_engine.cpp:134-158 | reduced, it holds exactly the supported (uri, encrypt) pairs, save toffset beside abs-send-time: the encrypted form goes, or the plain one if it is the only one |
| RtpExtensions.FilteredAscends | engine/webrtc_media_engine.cpp:125-132 | encrypted extensions come first, and names ascend character by character, strictly when reduced |
| RtpExtensions.FilterIsCanonical | engine/webrtc_media_engine.cpp:125-132 | permuted inputs with distinct keys give the same list |
| RtpExtensions.FilterIsDeterminedExactly | engine/webrtc_media_engine.cpp:106-160 | with and without reduction: one result for every order of the input exactly when different extensions share a key only where it is erased |
| RtpExtensions.UniqueIdsClash | engine/webrtc_media_engine.cpp:111-111 | with validated ids and no reduction that means distinct keys |
| RtpExtensions.ClashMakesTwo | engine/webrtc_media_engine.cpp:128-157 | two different reduced lists for any clash that is not erased |
| RtpExtensions.DuplicateKeysAreAmbiguous | engine/webrtc_media_engine.cpp:128-132 | with equal keys two different lists are possible |
| RtpExtensions.FilterKeepsIdsValid | engine/webrtc_media_engine.cpp:106-160 | ids stay unique and in range, and only supported inputs come out |
| RtpExtensions.RedundantPairSurvivesExactly | engine/webrtc_media_engine.cpp:143-157 | abs-send-time and toffset are both kept exactly when toffset came encrypted and plain |
| RtpExtensions.ToffsetInBothFormsStays | engine/webrtc_media_engine.cpp:143-157 | a valid offer for which both stay |
| Sorting.SortIsDeterminedExactly | engine/webrtc_media_engine.cpp:128-132 | a sort has one outcome exactly when the order decides between all members |
| Sorting.SortIsUnique | engine/webrtc_media_engine.cpp:128-132 | where the order decides, there is one sorted permutation |
| StatsMerge.Merge | engine/webrtc_video_engine.cpp:423-475 | each entry is the media stream's own statistics plus the counters of all that refer to it, in any map order |
| StatsMerge.EntriesExactly | engine/webrtc_video_engine.cpp:427-467 | there is an entry exactly for every media substream and every present one that is referred to |
| StatsMerge.EntryIsTheSum | engine/webrtc_video_engine.cpp:472-472 | each of the twelve counts of an entry is the integer sum of its media substream's and of those that refer to it |
| StatsMerge.AddMediaSubstreams | engine/webrtc_video_engine.cpp:428-440 | the media substreams as they are |
| StatsMerge.MergeOne | engine/webrtc_video_engine.cpp:443-473 | one substream added to the entry it refers to, or ignored |
| StatsMerge.TotalSplits | engine/webrtc_video_engine.cpp:472-472 | the sum does not depend on the order |
| StatsMerge.KeysAreMediaExactly | engine/webrtc_video_engine.cpp:457-466 | the keys are the media SSRCs exactly when all present references are to media |
| StatsMerge.ReferenceToRtxMakesAnEntry | engine/webrtc_video_engine.cpp:457-466 | a FlexFEC substream that refers to an RTX one makes an entry for it |
| StatsMerge.MergeConserves | engine/webrtc_video_engine.cpp:423-475 | each of the twelve counts, summed over all entries, is its sum over exactly the substreams that are not ignored |
| StatsMerge.EntriesSumToSources | engine/webrtc_video_engine.cpp:443-473 | any set of entries holds the counters of its sources |
| SendStreams.ValidateStreamParams | engine/webrtc_video_engine.cpp:277-310 | SSRCs present, every RTX SSRC among them, and as many as primaries |
| SendStreams.SendSide.ValidateSendSsrcAvailability | engine/webrtc_video_engine.cpp:1327-1337 | none of the SSRCs is in use |
| SendStreams.SendSide.AddSendStream | engine/webrtc_video_engine.cpp:1351-1404 | accepted exactly when valid and free; stream, index and report SSRC updated |
| SendStreams.SendSide.RemoveSendStream | engine/webrtc_video_engine.cpp:1406-1439 | removed exactly when known; index and report SSRC updated |
| SendStreams.FirstKey | engine/webrtc_video_engine.cpp:1425-1427 | the least key of the map |
| SendStreams.AddKeepsValid | engine/webrtc_video_engine.cpp:1351-1404 | the index stays the disjoint union of the live streams' SSRCs, each stream under its first one |
| SendStreams.RemoveKeepsValid | engine/webrtc_video_engine.cpp:1406-1439 | likewise, and the report SSRC stays a live key or 1 |
| SendStreams.RunKeepsValid | engine/webrtc_video_engine.cpp:1327-1439 | the same over every run |
| SendStreams.RemoveUndoesAdd | engine/webrtc_video_engine.cpp:1351-1439 | removing the stream just added restores everything |

## Left out

- Rounding of `float` and `DataRate` products: rates are exact reals, rounded down once where the source converts to `int`. Integer overflow of `width * height` and of bitrates is not modelled.
- `CreateDefaultVideoStreams` and the conference-mode screenshare layers. What the trials and the codec's tables yield (numbers of temporal layers, default frame rate, share of the first temporal layer) is a parameter.
- PowerOfTwo: the bit test is modelled by repeated halving.
- Codec feedback parameters, and format parameters other than `apt` and `rtx-time`; `VideoCodec`, `StreamParams` and `StreamDataCounters` are not part of this repository and are modelled by the fields used (the time of the first packet is not).
- The two checks at engine/webrtc_video_engine.cpp:202 and 225 are not claimed: many AV1 formats use up the low range while the high one is not exhausted.
- Pushing the negotiated role and fingerprint into the DTLS transports (jsep_transport.cpp:436-456), and what `ActivateRtcpMux` does to the transports beyond being called.
- libsrtp, OpenSSL, ICE and the packet transports: only what they answer. External authentication, authentication tag lengths, writable signals, and the SDES key paths.
- The base class of `DtlsSrtpTransport` is a component of the model, and destructors are explicit calls.
- GetNormalSimulcastLayers: any number of layers; the source stops above `kMaxSimulcastStreams` (engine/simulcast.cpp:150), a constant that is not part of this repository.
- Transports are identities: what a `JsepTransport` contains is not modelled, and neither are threads.
- Receive streams: their local SSRC is not updated in the model.
- `std::sort` is modelled by what its contract allows; StableSortByMax is an insertion sort with the result of `std::stable_sort`.
- `channel.cpp`, `channel_manager.cpp`, the voice engine, `ctransport_controller.cpp` and `cp2p_peerconnection.cpp`: commented out, or wiring.
- NonFlexfecReceiveCodecsHaveChanged: where settings of one payload type differ beyond FlexFEC the contract says only that unchanged lists are permutations, because the result then depends on `std::sort`; no caller passes such lists.
