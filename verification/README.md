# A verified model of aribcap-dump

aribcap-dump reads an MPEG transport stream and writes the ARIB captions and programme events of one
service. This project models the parts of it that keep state over a whole stream, and proves what they
do over every stream.

- **Framing.** `Framing.dfy` says in a few lines where the packets of a byte stream start, looking at the
  whole stream: `FrameStream` finds the least run of four sync bytes 188 apart, below offset 188, and from
  there on follows packet boundaries, searching anew from a boundary that lost its sync byte.
  `PacketFraming.dfy` holds the framer itself, a class with the 752-byte buffer it fills, shifts and
  empties in place. `Feed` is proved to deliver exactly the packets that definition finds in the bytes fed so
  far, however they were cut into calls. The link is `FramerRelation.Tracks`: whatever bytes may still
  follow, the packets delivered and those that a framer in this mode at this offset will find make up the
  framing. It stays true although the buffer may hold a candidate that is already disproved.
- **The initial search.** When `Feed` reports that initial sync failed does depend on how the input is cut.
  It reports it exactly if the input is beyond hope (`Hopeless`: every offset below 188 has a byte against it,
  so that no continuation can lock) and no two of its candidates are late (`InitialScan.LatePair`: the first
  of the two still waited for bytes of its probe when the input ended). `TwoCutsDisagree` feeds two framers
  the same 289 bytes, and only one reports a failure. A failure cannot stay unreported beyond 938 bytes.
- **The clock.** `ClockModel.dfy` is the PCR/TOT clock as a state machine with the theorems about its runs;
  `ClockHistory.dfy` tells the whole state of a clock, its reports and its conversions from the events that
  led to it. `ProgramTime.dfy` is the class, each method proved to take the machine's step and to leave the
  fields, or give the result, that the history calls for.
  `TimestampArithmetic.dfy` has the 33-bit arithmetic and the truncating conversion to milliseconds.
- **The service.** `ServiceModel.dfy` is the PAT/PMT life cycle of the target service as a state machine;
  `CaptionDumping.dfy` is the class with its two PID sets, its emitters and its clock.
- **Event information.** `EitRecords.dfy` has the event records and the version filter, and
  `ExtendedText.dfy` the joining of extended event items. `CaptionDumping.Dump` feeds a whole input
  to a new dumper and says what is emitted of it.
- **Smaller parts.** `PesTimestamp.dfy` (PTS field), `CaptionClassification.dfy`.

The packet handler is an object whose answer may depend on all calls made to it. The byte reader hands out
its bytes in reads of any size, then reports the end or an error. The libraries that demultiplex and decode
are not part of this model: a table, a descriptor or a packet header is a value already decoded, and a
packet fed to the dumper comes with the tables it completes. Constants taken from them are assumptions:
188-byte packets starting with 0x47, 33-bit PTS and DTS, a PCR below 300 * 2^33, `INVALID_PCR` all ones,
PIDs 0x0000, 0x0012, 0x0014 and 0x0027 for PAT, EIT, TOT and the third ISDB EIT, the null PID 0x1FFF, and
`DiffPTS(a, b)` as (b - a) modulo 2^33.

Where code and comments differ the model follows the code:

- src/core/packet_framer.hpp:55 says that `HasInitialSyncFailed` is true once initial sync has definitively
  failed. Between calls it may still be false then, because candidates are checked only when bytes arrive;
  the contract of `Feed` says exactly when. At the end of the input it is exact.
- src/core/eit_record_emitter.hpp:22 compares with the last emitted version; the code compares with the
  last table handled, even if nothing of it was emitted. `EitRecords.ComparesAsWithEmitted` says exactly on
  which tables that makes no difference, `EmitsAgainAfterEmptyVersion` gives three on which it does.

## Model

| member | source | states |
|---|---|---|
| FramingTheorems.FramingIsDetermined | src/core/packet_framer.cc:75-194 | the framing obeys, and is the only list of offsets to obey, the local rules: first the least confirmed run, below 188; then each packet at the boundary after the one before if that is a sync byte, else at the least run from there; no end while a packet can follow |
| FramingTheorems.FrameGrows | src/core/packet_framer.cc:39-73 | bytes still to come never change or withdraw a packet |
| FramingTheorems.InitialLockIsOnTime | src/core/packet_framer.cc:75-147 | initial lock comes with the very byte that completes the probe of the least run, with its four packets, and nothing comes before |
| FramingTheorems.RelockIsOnTime | src/core/packet_framer.cc:149-178 | after sync loss at a boundary the framer seeks until the least run from there is complete, and locks with that byte |
| FramingTheorems.FramingResumes | src/core/packet_framer.cc:149-194 | past the end of a packet, what a longer stream adds depends only on that boundary |
| FramingTheorems.LockedEnds | src/core/packet_framer.cc:149-194 | where the packets from a boundary end, the stream is at its end or within a packet, or sync is lost with no run following; the mode says which |
| FramingTheorems.LockedConserves | src/core/packet_framer.cc:149-194 | from a boundary to the end of the last packet, skipped and delivered segments put together are the stream, the delivered ones are the frames, and only a lost sync byte starts a skip, which ends in a delivered packet |
| FramingTheorems.Conservation | src/core/packet_framer.cc:75-194 | all of the stream is skipped, delivered or held, each byte exactly once and in order; the delivered parts are the frames, fewer than 188 bytes are skipped ahead of them, later ones only from a lost boundary, and what is held comes last |
| FramerRelation.TracksSkip | src/core/packet_framer.cc:89-107 | a searching framer may skip any offset that has a byte against it, for all continuations of the stream |
| FramerRelation.TracksReject | src/core/packet_framer.cc:115-116 | dropping a refuted candidate up to the next sync byte skips no run |
| FramerRelation.TracksBurst | src/core/packet_framer.cc:137-146 | the packets of a confirmed probe, up to any of the four, are the next of the framing |
| FramerRelation.TracksAtEnd | src/core/packet_framer.cc:39-73 | what was found when the input runs out is the framing of the input, mode included |
| FramerRelation.NothingLostWhileSynced | src/core/packet_framer.cc:149-194 | a framer synced at the end of its input stands exactly where the last packet ends |
| FramerRelation.SeekingFromLostBoundary | src/core/packet_framer.cc:174-178 | a framer seeks at the end of its input only if the boundary behind the last packet is not a sync byte and no run follows |
| FramerRelation.SkippedWereRefuted | src/core/packet_framer.cc:89-131 | the initial search leaves behind only offsets that have a byte against them |
| FramerRelation.HopelessIsFinal | src/core/packet_framer.hpp:55-61 | initial sync has failed for good exactly when each offset below 188 has a byte against it: then, and only then, no continuation locks |
| FramerRelation.LockedIffEarlyRun | src/core/packet_framer.cc:218-228 | a stream has locked, and has packets, exactly when an offset below 188 starts a run |
| FramerRelation.ServedOfAll | src/core/packet_framer.cc:196-216 | calls that serve the input read also serve the whole input, if reading stopped at its end, at a refusal, or beyond hope |
| PacketHandling.ServedIsDetermined | src/core/packet_framer.hpp:14-16 | handler and offered packets fix the calls: all of them up to the first refusal |
| PacketHandling.ServedChain | src/core/packet_framer.cc:39-73 | packets offered in two instalments are served as if offered at once |
| InitialScan.FailsIff | src/core/packet_framer.cc:89-131 | a call fails the initial search exactly if initial sync is beyond hope and there is no late pair of candidates |
| InitialScan.VerdictIff | src/core/packet_framer.cc:89-131 | the loop of candidates passes offset 188 exactly if all offsets from its candidate on are refuted and there is no late pair |
| InitialScan.CandidateSettles | src/core/packet_framer.cc:89-135 | a call leaves the search at the first candidate that is not refuted or still lacks bytes of its probe, or if that one is refuted at the next sync byte; it fails exactly if that is at 188 or beyond |
| InitialScan.ForetoldWindow | src/core/packet_framer.cc:109-135 | one round of the initial search does what `CandidateAfter` foretells |
| InitialScan.FindSyncIs | src/core/packet_framer.cc:90 | the scan finds the first sync byte |
| PacketFraming.PacketFramer.constructor | src/core/packet_framer.hpp:115-129 | a new framer tracks the empty stream |
| PacketFraming.PacketFramer.ValidMeansFramed | src/core/packet_framer.hpp:106-129 | between calls packets delivered and mode are those of the framing of all input; the buffer is the end of the input, while synced all of it beyond the last packet; offset and buffer make up the input during the initial search; seeking means a lost boundary with no run behind it; a failure of initial sync is not outstanding beyond 938 bytes |
| PacketFraming.PacketFramer.EveryByteIsAccountedFor | src/core/packet_framer.hpp:106-129 | between calls each byte received is in exactly one skipped run, packet, or the live part of the buffer, in order |
| PacketFraming.PacketFramer.Feed | src/core/packet_framer.cc:39-73 | the calls made are the packets the input completes, up to the first refusal; true exactly without refusal and sync failure; initial sync fails exactly if it is beyond hope and no two candidates are late; where it leaves the search is `Settled`; at most two steps a byte |
| PacketFraming.PacketFramer.FeedStep | src/core/packet_framer.cc:48-62 | one step keeps the invariant and consumes a byte, or else loses sync |
| PacketFraming.PacketFramer.FeedSeekingSync | src/core/packet_framer.cc:75-147 | a step of a search keeps the invariant, consumes a byte and does what is foretold; it stops only on a refusal or beyond hope |
| PacketFraming.PacketFramer.FillWindow | src/core/packet_framer.cc:89-113 | the window starts at the candidate and takes in as much input as the probe can |
| PacketFraming.PacketFramer.RejectCandidate | src/core/packet_framer.cc:115-131 | the next sync byte of the window becomes the candidate; initial sync fails exactly at offset 188 or beyond |
| PacketFraming.PacketFramer.ConfirmProbe | src/core/packet_framer.cc:137-146 | the four packets are handed over, up to a refusal, and the mode becomes synced only if all were accepted |
| PacketFraming.PacketFramer.FeedSynced | src/core/packet_framer.cc:149-194 | a step while synced keeps the invariant; a boundary that is not a sync byte is not consumed |
| PacketFraming.PacketFramer.CompletePacket | src/core/packet_framer.cc:152-172 | a packet split across calls is completed and handed over |
| PacketFraming.PacketFramer.EmitSyncConfirmedPackets | src/core/packet_framer.cc:243-252 | the packets of the window are handed over in order up to the first refusal |
| PacketFraming.PacketFramer.PendingSyncBytesAreValid | src/core/packet_framer.cc:254-264 | true exactly if no boundary buffered so far refutes the candidate |
| PacketFraming.PacketFramer.DiscardPendingUntilNextSync | src/core/packet_framer.cc:266-275 | the window loses its candidate and all bytes before the next sync byte, which comes to the front |
| PacketFraming.PacketFramer.FinishAtEof | src/core/packet_framer.cc:218-228 | sync never confirmed has failed |
| PacketFraming.PacketFramer.FeedUntilEof | src/core/packet_framer.cc:196-216 | for all read sizes: without read error and refusal it returns true exactly if an offset below 188 starts a run, and otherwise sync has failed; it reads to the end unless stopped; after a refusal it does not set the flag; it reads nothing more after a refusal or a failure, as the last read is the one with the refused packet or the one on which sync failed |
| PacketFraming.ReadAndFramePackets | src/core/packet_framer.cc:277-288 | input and handler alone decide the calls and, without a read error, the status: no sync exactly without an early run, failed exactly on a refusal, otherwise ok; nothing is read beyond what stopped it |
| PacketFraming.TwoCutsDisagree | src/core/packet_framer.cc:115-131 | of two framers fed the same bytes, one at once and one in two calls, only the second reports a failure |
| TimestampArithmetic.WrapAwareDeltaIsNearest | src/core/program_clock.cc:32-43 | the delta is the one value in (-2^32, 2^32] congruent to the difference |
| TimestampArithmetic.WrapAwareDeltaReverses | src/core/program_clock.cc:36-42 | it changes sign with its operands exactly unless it is 2^32 |
| TimestampArithmetic.DeltaOfAdvance | src/core/program_clock.cc:32-43 | the distance to a counter advanced by d is d exactly if d is in (-2^32, 2^32] |
| TimestampArithmetic.AdvanceByDelta | src/core/program_clock.cc:94-98 | accepted deltas add up to an unwrapped time |
| TimestampArithmetic.DeltaToMsIsExact | src/core/program_clock.cc:166-170 | the product stays in 64 bits, and the result is a ninetieth of the delta, truncated toward zero |
| TimestampArithmetic.DeltaAgreesWithAbsolute | src/core/ts_utils.cc:14-16 | away from the wrap it agrees within 1 ms with the absolute conversions |
| TimestampArithmetic.AbsoluteMs | src/core/ts_utils.cc:14-16 | the low 33 bits in milliseconds, rounded down |
| ClockModel.Step | src/core/program_clock.cc:52-157 | all PCRs kept are 33-bit values, and at most one suspect is held, after any event |
| ClockModel.InSeriesIff | src/core/program_clock.cc:46-100 | an unflagged sample is in series exactly if the counter, going on for at most a second from the last accepted PCR, comes to show it |
| ClockModel.ConversionIsExact | src/core/program_clock.cc:159-171 | a timestamp d ticks from the reference converts to its time and d/90 truncated, with an error below 1 ms |
| ClockModel.ConversionIsMonotone | src/core/program_clock.cc:159-171 | later timestamps never convert to earlier times |
| ClockModel.ConversionFitsIff | src/core/program_clock.cc:170 | all conversions fit in 64 bits exactly if the reference time is 47721858 ms away from their limits |
| ClockModel.TimelineHolds | src/core/program_clock.cc:94-98 | in every reachable state the last PCR is the reference PCR and the ticks accepted since, modulo 2^33 |
| ClockModel.LatestPcrConvertsToElapsedTime | src/core/program_clock.cc:159-171 | the latest PCR converts to the reference time and the elapsed time exactly as long as at most 2^32 ticks elapsed |
| ClockModel.LatestTimeIs | src/core/program_clock.cc:159-171 | the latest PCR converts to the reference time and the elapsed time, less one full counter range for each time that half of it was passed |
| ClockModel.TimeGoesBackIff | src/core/program_clock.cc:67-171 | while a reference stands, the time of the latest PCR goes back at some moment exactly if the elapsed ticks pass 2^32, or 2^32 and further multiples of 2^33 |
| ClockModel.LiveTimeNeverGoesBack | src/core/program_clock.cc:67-171 | between two moments of one reference without such a turn, among them all up to 2^32 elapsed ticks, the time of the latest PCR does not go back |
| ClockModel.SteadyTimeGoesBack | src/core/program_clock.cc:159-171 | a PCR a second and one TOT: after 47722 seconds the time goes back |
| ClockModel.SuspectsAreAccountedFor | src/core/program_clock.cc:81-128 | over any run, suspect samples are twice the inferred discontinuities, and those cancelled, and the one that may be held |
| ClockModel.HeldClock | src/core/program_clock.cc:114-145 | while a suspect is held nothing but the count has changed |
| ClockModel.SuspectHeldIff | src/core/program_clock.cc:96-128 | a suspect is held exactly if a sample was out of series and only irrelevant events followed |
| ClockModel.InferredExactlyWhenTwoInARow | src/core/program_clock.cc:103-124 | a discontinuity is inferred exactly if two samples in a row are out of series against the same accepted PCR |
| ClockModel.LoneSuspectIsRolledBack | src/core/program_clock.cc:96-164 | while a suspect is held nothing converts; after a sample in series all conversions are as before it |
| ClockHistory.PidIsLastNamed | src/core/program_clock.cc:52-65 | over any run the PCR PID is the last one named that is not the null PID |
| ClockHistory.LastIsLastKept | src/core/program_clock.cc:67-124 | over any run the PCR kept is that of the last sample on the PCR PID, since it was named, that is not held as suspect; there is none without such a sample |
| ClockHistory.SuspectIsLastSample | src/core/program_clock.cc:96-128 | over any run a suspect is held exactly if the last sample does not go on from the PCR kept, is not flagged, and came while none was held |
| ClockHistory.ReferenceIsLastAnchor | src/core/program_clock.cc:108-157 | over any run the reference is the time of the last TOT that carried one while a PCR was kept and no suspect held, at that PCR, unless another PID or a discontinuity came since |
| ClockHistory.ReportsBreaks | src/core/program_clock.cc:67-124 | a packet is reported, with its PID and its flag, exactly if it is a flagged sample or one that confirms a suspect |
| ClockHistory.ConvertsByHistory | src/core/program_clock.cc:159-171 | over any run, which timestamps convert, and to what, by the events |
| ClockHistory.ConversionIsDetermined | src/core/program_clock.cc:159-171 | the history leaves one result for each timestamp |
| ProgramTime.ProgramClock.SetPcrPid | src/core/program_clock.cc:52-65 | takes the step of the machine; afterwards all fields are those that the history calls for |
| ProgramTime.ProgramClock.RecordPcr | src/core/program_clock.cc:67-106 | takes the step of the machine; afterwards all fields are those that the history calls for; reports the packet exactly if it is flagged or confirms a suspect, with its PID and flag |
| ProgramTime.ProgramClock.AdoptNewPcrSeries | src/core/program_clock.cc:108-112 | starts a new series without reference |
| ProgramTime.ProgramClock.HandleSuspectPcrDiscontinuity | src/core/program_clock.cc:114-124 | holds the first suspect and takes up the series of the second |
| ProgramTime.ProgramClock.UpdateReferencePointFromTot | src/core/program_clock.cc:130-157 | takes the step of the machine; afterwards all fields, the reference among them, are those that the history calls for |
| ProgramTime.ProgramClock.ToUnixMs | src/core/program_clock.cc:159-171 | converts exactly the timestamps in range, while no suspect is held and a TOT anchors the series: to that TOT's time and a ninetieth of the distance from the PCR kept when it came, rounded to zero |
| ServiceModel.PmtPidIsFromLastPat | src/core/caption_dumper.cc:115-157 | the PMT PID is that of the last PAT that located the service; colliding PATs do not count |
| ServiceModel.ProfilesAreOfCurrentPmt | src/core/caption_dumper.cc:159-254 | over any run the live caption streams are those of the last PMT accepted since the last teardown, told by stream type, component tag, data component and PMT PID; none without one |
| ServiceModel.OneProfileAtATime | src/core/caption_classifier.cc:27-51 | all live streams have one profile |
| ServiceModel.StreamsWithoutPmtPidIff | src/core/caption_dumper.cc:115-168 | there are streams and no PMT PID exactly if the current PMT asks for streams and no PAT has located the service, or the last that did took it off the air |
| ServiceModel.StreamsAreFromPmtPidIff | src/core/caption_dumper.cc:115-168 | live streams are of a PMT received on the PMT PID exactly if a current PMT that asks for streams came from where the last locating PAT put it |
| ServiceModel.LiveStreamsAreOfReceivedPmt | src/core/caption_dumper.cc:159-168 | when PMTs come only on PIDs that are demultiplexed, live streams are of a PMT on the PMT PID or on a reserved PID |
| ServiceModel.StreamsWithoutPmtPid | src/core/caption_dumper.cc:159-168 | such a PMT on a reserved PID ahead of any PAT makes a stream live with no PMT PID |
| ServiceModel.EitsArePassedOn | src/core/caption_dumper.cc:176-192 | the EIT emitter gets exactly the valid EITs of the service, in order |
| ServiceModel.OthersMakeNoDifference | src/core/caption_dumper.cc:79-192 | leaving out all invalid tables, the PMTs and EITs of other services, TOTs without a time and unknown tables changes nothing |
| ServiceModel.RunSplits | src/core/caption_dumper.cc:49-73 | what happens in two instalments has the effect of it all at once |
| ServiceModel.ClockRunsOnItsEvents | src/core/caption_dumper.cc:49-174 | the clock has run on exactly the packets, accepted PMTs and TOTs; no teardown resets it |
| ServiceModel.DiagnosticsAreReportsAndCollisions | src/core/caption_dumper.cc:49-145 | over any run the diagnostics are the clock's reports and the PMT PID collisions, in order |
| CaptionClassification.DesiredAreCaptions | src/core/caption_classifier.cc:12-81 | the streams asked for are exactly those of type 0x06 with tag 0x30 and data component 0x0008 or none in a PMT outside PIDs 0x1FC8 to 0x1FCF, as Profile A, and with tag 0x87 and data component 0x0012 in a PMT on one of these, as Profile C |
| CaptionDumping.CaptionDumper.DemuxedPids | src/core/caption_dumper.cc:23-31 | at any time the sections demultiplexed are those on PIDs 0x0000, 0x0012, 0x0014 and 0x0027 and on the PMT PID, which is none of them; PES packets are those of the live streams |
| CaptionDumping.CaptionDumper.constructor | src/core/caption_dumper.cc:35-47 | a new dumper demultiplexes exactly the reserved PIDs |
| CaptionDumping.CaptionDumper.HandlePat | src/core/caption_dumper.cc:115-157 | takes the step of the machine and keeps the section PIDs at the reserved ones and the PMT PID, never a reserved one |
| CaptionDumping.CaptionDumper.HandlePmt | src/core/caption_dumper.cc:159-168 | takes the step of the machine: for a valid PMT of the service the emitters are those of its caption streams and the clock gets its PCR PID, any other does nothing; emitters that go on with their profile stay the same objects, all others are new |
| CaptionDumping.CaptionDumper.HandleTot | src/core/caption_dumper.cc:170-174 | takes the step of the machine |
| CaptionDumping.CaptionDumper.HandleEit | src/core/caption_dumper.cc:176-192 | takes the step of the machine, and passes on exactly the valid EITs of the service; the emitter has handled exactly the tables passed on |
| CaptionDumping.CaptionDumper.EitOutput | src/core/caption_dumper.cc:79-192 | after any run from the start, the EIT output is the selected records of the valid EITs of the service whose version differs from that of the one before |
| CaptionDumping.CaptionDumper.SyncCaptionStreams | src/core/caption_dumper.cc:194-229 | the emitters are those of the caption streams of the PMT, with their profiles, and the PES PIDs their keys; those that go on with their profile are the same objects, all others are new |
| CaptionDumping.CaptionDumper.DropUnwanted | src/core/caption_dumper.cc:205-214 | exactly the emitters still wanted stay |
| CaptionDumping.CaptionDumper.RegisterWanted | src/core/caption_dumper.cc:216-228 | every wanted stream has an emitter with its profile, the old one exactly if it had that profile |
| CaptionDumping.CaptionDumper.RegisterCaptionStream | src/core/caption_dumper.cc:231-237 | adds one new emitter and its PID |
| CaptionDumping.CaptionDumper.UnregisterCaptionStream | src/core/caption_dumper.cc:239-242 | removes one emitter and its PID |
| CaptionDumping.CaptionDumper.TeardownTargetService | src/core/caption_dumper.cc:244-254 | leaves no PMT PID, no emitter and only reserved section PIDs; the clock goes on |
| CaptionDumping.CaptionDumper.HandleTable | src/core/caption_dumper.cc:79-103 | takes the step of the machine for any table; an emitter whose stream goes on with its profile stays the same object, every other is new |
| CaptionDumping.CaptionDumper.FeedPacket | src/core/caption_dumper.cc:49-73 | runs the machine over the packet and the tables it completes; the emitter of a stream that kept its profile all along stays the same object, every other is new; the packet goes on exactly if its PID then has a live stream |
| CaptionDumping.CaptionDumper.FeedPackets | src/main.cc:53-55 | over any number of packets: the state is that of the machine after all their events, the emitters of exactly the streams that kept their profile throughout are the same objects, and each packet went on exactly if its PID then had a live stream |
| CaptionDumping.Dump | src/main.cc:53-55 | for a new dumper and any input: the state is that of the machine after all its events, and the EIT output is the selected records of the valid EITs of the service whose version differs from that of the one before |
| PesTimestamp.ParsesExactlyTheStandardForm | src/core/ts_utils.cc:18-42 | a packet has a PTS exactly if its header carries the standard's five bytes for it, in either form |
| PesTimestamp.EncodeThenAssemble | src/core/ts_utils.cc:32-41 | every 33-bit value survives printing and parsing |
| PesTimestamp.AssembleThenEncode | src/core/ts_utils.cc:32-41 | every accepted field is printed back as it was |
| PesTimestamp.PartsAreDisjoint | src/core/ts_utils.cc:38-41 | the three shifted parts do not overlap and the mask changes nothing |
| ExtendedText.FormatExtendedText | src/core/eit_parser.cc:71-101 | the text is the newline-join of the non-empty parts |
| ExtendedText.TextByItem | src/core/eit_parser.cc:71-101 | the text, item by item: a description and its value on lines of their own, a bare value as it is, nothing for an empty item, the free text last |
| ExtendedText.PushParsedExtendedEventItem | src/core/eit_parser.cc:53-68 | an entry without description goes on with the last item, any other is a new item |
| ExtendedText.ParseExtendedEvents | src/core/eit_parser.cc:146-164 | the text depends on the entries and texts of the valid descriptors, joined over all of them |
| ExtendedText.SplitKeepsMerge | src/core/eit_parser.cc:53-68 | splitting a value in two entries leaves the items unchanged |
| ExtendedText.MergeUndoesExactlySplitting | src/core/eit_parser.cc:53-68 | two lists of entries merge to the same items exactly if splits and unsplits lead from one to the other |
| ExtendedText.TextIgnoresSplitting | src/core/eit_parser.cc:146-162 | the text is the same wherever values are split and however entries are spread over descriptors |
| EitRecords.ParseDescriptors | src/core/eit_parser.cc:103-165 | short events, genres and extended text are those of the valid descriptors of their kind, in order |
| EitRecords.OneDescriptor | src/core/eit_parser.cc:103-165 | a valid descriptor, wherever it stands, adds all it has to what its kind gives and nothing else; any other changes nothing |
| EitRecords.RecordsTell | src/core/eit_parser.cc:186-230 | what each record says of its event and table |
| EitRecords.RecordsAreDetermined | src/core/eit_parser.cc:186-230 | no other list of records says that |
| EitRecords.ParseEit | src/core/eit_parser.cc:186-230 | one record for each of the first two events of a valid table: with the event's id, start, text and its duration if that fits in 32 bits, and the ids and version of the table |
| EitRecords.LabelsOfATable | src/core/eit_parser.cc:45-51 | at most two records; the present label only on the first, exactly if the present section had an event |
| EitRecords.EitRecordEmitter.HandleEit | src/core/eit_record_emitter.cc:13-32 | emits the selected records of the table, in order, unless it repeats the version before it |
| EitRecords.EmitsExactlyFreshTables | src/core/eit_record_emitter.cc:13-32 | over any run the output is the selection of the records of exactly the tables whose version differs from the table just before |
| EitRecords.ComparesAsWithEmitted | src/core/eit_record_emitter.hpp:21-23 | comparing with the last emitted version would give the same output all along exactly if, at each table with a selected record, it repeats the table just before exactly if it repeats the last one that had a selected record |
| EitRecords.EmitsAgainAfterEmptyVersion | src/core/eit_record_emitter.cc:13-32 | a version is emitted again after a table of which nothing was emitted |
| EitRecords.ShowsIff | src/core/eit_record_emitter.cc:20-31 | a table has a selected record exactly if it is valid and has an event of the section asked for |
| EitRecords.ModesPartitionTheOutput | src/core/eit_record_emitter.cc:20-31 | the present-only and following-only outputs divide the output of both, each in order |

## Left out

- PacketFraming.PacketFramer.Feed: what a framer does when it is fed again after `Feed` returned false; its contract says that delivery must stop then.
- PacketFraming.PacketFramer.FeedUntilEof: a reader that never reaches an end; what was delivered by then is what `Feed` states.
- The file descriptor reader, its retry on `EINTR`, `main` and command line parsing: input and output plumbing.
- Viewing the bytes of a packet as a packet object: a packet is its 188 bytes.
- Demultiplexing, deserialization of tables and descriptors, character sets and caption decoding: other libraries.
- Calendar conversions of TOT and event times: a time is an optional number of milliseconds.
- Debug assertions that a table is current, actual and present/following: conditions on the caller of `ParseEit`.
- CaptionDumping.CaptionDumper.SyncCaptionStreams: streams are visited in any order, not by ascending PID; the outcome does not depend on it.
- Delivery of PES packets to the decoders of an emitter, and flushing at the end: driven by the decoders.
- The order of diagnostics among event records and captions in the output: each kind is a list of its own.
- Output records as JSON: a mapping field by field.
