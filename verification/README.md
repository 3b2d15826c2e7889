# Verified models of state codecs, ledgers, graph checks and publish protocols

This project models the algorithmic core of the repository in Dafny and proves what that core is
for: codecs that give back exactly what was put in, ledgers that keep their rules under any
interleaving of clients, graph and crawl algorithms that compute what they claim, and caches,
chains and publications that cannot be told from their simple specifications.

`dafny verify dfyconfig.toml` checks everything.

## How the model is organised

| files | what they model |
|---|---|
| `ByteCodec`, `Segments`, `Prelude` | byte strings, Python slices, big-endian `struct` fields, run and ramp scans, string order |
| `FileDelta` | the transceiver's file channel: prefix/suffix anchors, block delta, packet choice, decoder |
| `TemporalSeries` | the transceiver's series channel: still-then-moving cells |
| `PcmCodec`, `BoneTracks`, `RecordDelta` | the file engine's audio, skeleton and record codecs |
| `ActionLedger`, `ActionCalls`, `ActionRuns`, `ActionClient` | the action ledger as functions of file and cache, what each call answers and stores, whole runs, and the object |
| `WorkLedger`, `WorkCalls`, `WorkRuns`, `WorkScheduler`, `WorkClient` | the work ledger with its compare-and-swap save, what each call answers and stores, whole runs, the scheduler, the object |
| `Crawler` | the depth-bounded crawl over any web |
| `CapabilityGraph`, `CapabilityContext` | the dependency check, the requirement closure, the projection and its validator |
| `ReleasePublish`, `ReleaseInventory` | concurrent builders publishing by rename; verification of an existing release |
| `MetricMemory` | the RAM cache over masked, split fragments |
| `EvidenceChain` | the hash-chained evidence file |

Loops and objects of the source are methods and classes here. Each such method is proved equal to
a specification function, and the theorems are about those functions and about whole runs of them.
Python exceptions are error values. SHA-256 is an arbitrary function to 32 bytes where its value
is stored; where the code compares digests instead of contents, either collision-freedom is an
explicit hypothesis or, for the work ledger's file digest and its seals, a digest is represented
by what it is a digest of.

## Findings

* **File delta, mode 0.** The encoder treats equal digests as equal files. Encoding and decoding
  give back the target if and only if the digests differ or the target is a prefix of the base
  (`FileDelta.RoundTrip`); otherwise even a wrong file can be reported as verified
  (`FileDelta.CollisionMisleads`).
* **Work ledger, opening.** The constructor reads the file once for its data and again for its
  digest, without a lock. If another client saves in between, the new client can overwrite that
  save unnoticed (`WorkRuns.RaceLosesUpdate`). A client that holds the current digest loses no
  update, whatever it calls, if and only if its copy of the tasks is the file's
  (`WorkRuns.FaithfulIff`). A client whose own openings were not raced and whose own calls give list
  fields lists never loses one, whatever the others do (`WorkRuns.NoLostUpdates`).
* **Work ledger, validation.** `update_task` edits the cached copy before it validates it. On an open
  task the validation fails exactly when a list field is given something else than a list
  (`WorkRuns.RejectedValueStays`), and the rejected value stays in the copy. In any run, a call that
  changes the file leaves it loadable if and only if every task of that client's copy, except the
  one the call edits, is valid (`WorkRuns.SaveLoadsIff`, `WorkRuns.RunLoadsIff`). After one rejected
  update that means: if and only if the call repairs that very task
  (`WorkRuns.RejectedValueIsPersisted`); the creation of another task does not
  (`WorkRuns.CreationPersistsRejectedValue`), and after two rejected updates repairing one task
  does not either (`WorkRuns.TwoSpoiledTasks`).
* **Temporal series.** Samples that fit 32 bits are not enough: two extreme neighbours can overflow
  the net-change field (`TemporalSeries.ExtremeJumpIsRejected`). A series is accepted if and
  only if, besides, the change across each single cell fits (`TemporalSeries.EncodesIff`); a jump
  between two cells may be of any size (`TemporalSeries.JumpBetweenCellsIsAccepted`).
* **Audio.** The encoder accepts lists longer than the decoder's limit of 100,000,000 samples; exactly
  those are not given back (`PcmCodec.RoundTrip`, `PcmCodec.LongSilenceIsLost`), and so with
  animations of more frames (`BoneTracks.RoundTrip`).
* **Scheduler.** A workable ledger gets stuck exactly in deadlocks: nothing is scheduled if and only if
  all open tasks wait for each other (`WorkScheduler.StuckIffDeadlocked`), and draining completes
  everything if and only if no tasks do (`WorkScheduler.DrainsIffDeadlockFree`), which is the same
  as acyclic dependencies. `WorkScheduler.TwoTasksDeadlock` is the smallest failing ledger.
* **Metric memory.** The cache is transparent on all runs over a set of codes if and only if no two of
  them share an address (`MetricMemory.TransparentIffApart`); two that do read each other's values
  (`MetricMemory.SharedAddressLeaks`).

## Model

| member | source | states |
|---|---|---|
| ByteCodec.U32Bytes | gst_transceiver.py:37 | a packed unsigned field is big-endian: its four bytes weigh 2^24, 2^16, 2^8 and 1 |
| ByteCodec.SignedBytes | gst_transceiver.py:203 | a packed signed field is the two's complement of its value |
| FileDelta.AnchorsAreLongest | gst_transceiver.py:48-58 | the prefix scan finds the longest common prefix and the suffix scan the longest common suffix that does not overlap it: a length is common if and only if it is at most the one found |
| FileDelta.ScanAnchors | gst_transceiver.py:48-58 | the two scanning loops compute these lengths |
| FileDelta.ScanBlocks | gst_transceiver.py:75-82 | the block loop collects a sub-packet for exactly the blocks the base does not hold in the same place |
| FileDelta.PackSmaller | gst_transceiver.py:60-101 | builds both delta packets and returns the smaller, the anchored one on a tie |
| FileDelta.EncodeFileState | gst_transceiver.py:26-113 | the encoder equals its specification on every input, including refusal without authority and field overflow |
| FileDelta.PatchInPlace | gst_transceiver.py:152-157 | the sub-packet loop over an array of chunks, with its two error cases, equals the recursive replay |
| FileDelta.RebuildBytes | gst_transceiver.py:137-161 | the mode dispatch of the decoder equals its specification for arbitrary packets |
| FileDelta.DecodeFileState | gst_transceiver.py:116-175 | the decoder equals its specification for arbitrary bytes: holds, raised errors, verified payload |
| FileDelta.JoinOfBlocks | gst_transceiver.py:76-77 | cutting into blocks of any size and joining them gives the bytes back |
| FileDelta.PatchReplaysDiffs | gst_transceiver.py:75-84 | replaying the sub-packets over the base's blocks, padded or cut to the target's count, yields the target's blocks, last short block included |
| FileDelta.RoundTrip | gst_transceiver.py:26-175 | for all files the encoder accepts, among them all below 4 GiB, decoding against the same base yields exactly the target in all three modes, if and only if the pair is not a digest collision with the target no prefix of the base |
| FileDelta.StaticDecodes | gst_transceiver.py:35-46 | a packet made on equal digests decodes to the base cut to the target length, verified if and only if that has the same digest too |
| FileDelta.CollisionMisleads | gst_transceiver.py:35-46 | any two different files of one length have a fingerprint under which the decoder reports the base as the verified target |
| FileDelta.EncodedSize | gst_transceiver.py:97-101 | for every accepted pair the packet is no longer than either delta packet, and 77 bytes when the digests agree |
| FileDelta.ShiftTheorem | gst_transceiver.py:48-101 | replacing any Y by any X at any place costs at most 89 + len(X) bytes |
| FileDelta.AnchorLiteralIsMinimal | gst_transceiver.py:48-72 | no other prefix and suffix of the base describe the target with a shorter literal |
| FileDelta.ScatteredEdits | gst_transceiver.py:74-101 | for every accepted pair the packet costs at most 101 bytes plus 264 for each changed block between the anchors |
| FileDelta.GuardsHold | gst_transceiver.py:118-135 | a packet of the encoder is held without authority, and held for a base mismatch if and only if the receiver's base has another digest |
| FileDelta.AlteredBodyNeverAccepted | gst_transceiver.py:163-175 | remark on what the digest test is worth: whatever body follows the header, a decoder that accepts returns the target, unless it found another file with the target digest |
| FileDelta.EncodeAnswers | gst_transceiver.py:26-113 | the encoder holds without authority, answers equal digests with the static packet, otherwise with the anchored packet if its literal is no longer than the 12 bytes and the sub-packets of the other, and raises exactly if a length does not fit; every field of each packet is at its place |
| FileDelta.PackedBlockIs | gst_transceiver.py:82 | a sub-packet is the block's number, its length and the block |
| FileDelta.DecodeGuards | gst_transceiver.py:118-175 | over any bytes: held without authority, without the magic, for another base digest, for a mode above 2, in this order; whatever is rebuilt is verified if and only if it has the target digest of the packet, and otherwise held under its own digest |
| FileDelta.VerifiedMeans | gst_transceiver.py:118-175 | only a packet with the magic, a known mode and the digests of this base and this payload is ever verified |
| FileDelta.RebuildAnswers | gst_transceiver.py:137-147 | what the first two modes rebuild from any packet and base, and when they raise |
| FileDelta.BlocksAnswer | gst_transceiver.py:146-159 | what the block mode rebuilds from any packet and base |
| FileDelta.PatchAnswers | gst_transceiver.py:152-157 | each sub-packet of any packet overwrites the chunk it names, or raises for a chunk or fields that are not there |
| Segments.ScanRun | gst_transceiver.py:190-192 | the run loop finds the first position that differs |
| Segments.ScanRamp | gst_transceiver.py:198-201 | the ramp loop, which remembers the previous sample, finds the first position that breaks the step |
| TemporalSeries.CellAt | gst_transceiver.py:189-204 | a cell lies inside the series, both its parts are as long as possible, and it covers at least two samples unless it is the last |
| TemporalSeries.CellIsExact | gst_transceiver.py:188-204 | the samples a cell prescribes are the samples of the series |
| TemporalSeries.NetDeltaIsDifference | gst_transceiver.py:202 | the net change is the difference of the cell's last and first sample |
| TemporalSeries.CutCells | gst_transceiver.py:185-204 | the segmentation loop produces the specified cells, or raises exactly when one overflows its fields |
| TemporalSeries.EncodeTemporalSeries | gst_transceiver.py:181-205 | the encoder equals its specification, error case included |
| TemporalSeries.EncodeAnswers | gst_transceiver.py:183-205 | a packet holds magic, mode, digest, length, cell count and the cells, each at its place; the only error is that of the packing |
| TemporalSeries.CellLayout | gst_transceiver.py:203 | the six fields of a cell, each at its place |
| TemporalSeries.WriteCell | gst_transceiver.py:216-219 | the two inner loops write one cell into the array, or raise exactly when a position does not exist |
| TemporalSeries.DecodeTemporalSeries | gst_transceiver.py:208-229 | the decoder equals its specification for arbitrary bytes |
| TemporalSeries.CellsPartition | gst_transceiver.py:185-204 | the cells partition the series |
| TemporalSeries.RoundTrip | gst_transceiver.py:181-229 | every encoded series is rebuilt exactly and its digest matches |
| TemporalSeries.DecodesIff | gst_transceiver.py:208-229 | any packet decodes if and only if it has the header and the cells it announces, none writes beyond the announced length and the samples fit; each sample is what the last cell over it says, and it is exact if and only if the header's digest is that of the samples |
| TemporalSeries.DecodeRaises | gst_transceiver.py:210-220 | what other packets raise: the index error if a cell that is there writes beyond the announced length, else the error of unpacking or packing, for a packet cut short or a sample that does not fit |
| TemporalSeries.ForeignCells | gst_transceiver.py:220-224 | whatever cells follow the header of an encoded series, what decodes is exact if and only if its samples have the digest of the series, so exactness with another series exhibits a collision |
| TemporalSeries.PacketIsShort | gst_transceiver.py:188-205 | the packet has at most 49 + 24 * ceil(n/2) bytes |
| TemporalSeries.EncodesIff | gst_transceiver.py:183-203 | a series is accepted if and only if it is shorter than 2^32, its samples fit, and so does the change between the first and the last sample of each cell |
| TemporalSeries.NarrowSeriesEncode | gst_transceiver.py:183-203 | every series below 2^32 samples with values in [-2^30, 2^30) is accepted |
| TemporalSeries.ExtremeJumpIsRejected | gst_transceiver.py:197-203 | fitting samples alone are not enough for the encoder to succeed |
| TemporalSeries.JumpBetweenCellsIsAccepted | gst_transceiver.py:197-204 | an extreme jump that falls between two cells is accepted |
| PcmCodec.PacketAt | universal_8d_file_engine.py:32-55 | packets cover at least one and, when regular, three samples; a literal ends where a regular packet can start |
| PcmCodec.PacketIsMaximal | universal_8d_file_engine.py:33-51 | a still packet starts exactly at three equal samples, a ramp exactly at three others in even steps, and each runs as far as its pattern; a literal ends at the first such place |
| PcmCodec.PacketsFit | universal_8d_file_engine.py:37-54 | every packed field fits its width, steps in 17 signed bits |
| PcmCodec.ScanLiteral | universal_8d_file_engine.py:45-51 | the literal loop stops at the first place where a regular packet can start |
| PcmCodec.CutPacket | universal_8d_file_engine.py:33-55 | one turn of the encoder's loop cuts the specified packet |
| PcmCodec.AnalyzeAudioPcm | universal_8d_file_engine.py:27-58 | the encoder equals its specification, error case included |
| PcmCodec.AnalyzesIff | universal_8d_file_engine.py:28-29 | a list is accepted if and only if its samples have 16 bits and its length fits 32; the bundle carries their digest |
| PcmCodec.ReadPacket | universal_8d_file_engine.py:85-103 | one turn of the decoder's loop equals its specification, with its six ways to reject |
| PcmCodec.ReconstructAudioPcm | universal_8d_file_engine.py:75-111 | the decoder equals its specification for arbitrary bytes |
| PcmCodec.NoAdjacentLiterals | universal_8d_file_engine.py:45-54 | two literal packets are never adjacent |
| PcmCodec.PacketCount | universal_8d_file_engine.py:30-56 | there are at most (n+1)/2 packets |
| PcmCodec.RoundTrip | universal_8d_file_engine.py:27-111 | every accepted list of samples is given back exactly with matching digest if it has at most 100,000,000 samples; longer ones are rejected by the decoder's limit |
| PcmCodec.LongSilenceIsLost | universal_8d_file_engine.py:27-82 | a list of 100,000,001 samples that the encoder accepts and the decoder rejects |
| PcmCodec.ParseStaysInside | universal_8d_file_engine.py:83-105 | over arbitrary bytes the parse never leaves the cell, never exceeds the announced count, and consumes at least five bytes and one sample per packet |
| PcmCodec.PrefixFree | universal_8d_file_engine.py:77-105 | appending anything to an accepted cell makes it a framing mismatch |
| PcmCodec.TruncationRejected | universal_8d_file_engine.py:77-105 | every proper prefix of an accepted cell is rejected |
| PcmCodec.AcceptsIff | universal_8d_file_engine.py:77-111 | the decoder accepts exactly the cells made of an announced number of packets within the limit, gives the samples these stand for, and reports exactness if and only if the samples have the bundle's digest |
| PcmCodec.ForeignCell | universal_8d_file_engine.py:106-108 | any accepted cell in place of the encoder's is exact if and only if its samples have the digest of the originals, so exactness with other samples exhibits a collision |
| PcmCodec.RejectionIsReal | universal_8d_file_engine.py:78-82 | the header error is raised if and only if the cell is short or has another magic, the limit error if and only if the announced counts exceed the limits |
| PcmCodec.TurnRejects | universal_8d_file_engine.py:85-103 | each of the six rejections of a packet happens exactly if the cell has the fault it names |
| PcmCodec.FirstFault | universal_8d_file_engine.py:84-103 | a cell with a good header is rejected for the first announced packet that cannot be read, by that packet's rejection |
| PcmCodec.LastFault | universal_8d_file_engine.py:104-111 | if all announced packets can be read, left-over bytes or a missed sample count are the framing error, a sample beyond 16 bits the error of the packing, and anything else is accepted |
| PcmCodec.PacketLayout | universal_8d_file_engine.py:37-54 | a packet is its kind, its length and its payload, each field at its place |
| BoneTracks.PlaceColumn | universal_8d_file_engine.py:157-158 | overwrites one bone of every frame in place and nothing else |
| BoneTracks.FillInPlace | universal_8d_file_engine.py:154-158 | the loop over bones equals its specification, error cases included |
| BoneTracks.RoundTrip | universal_8d_file_engine.py:118-162 | an animation of any length is accepted if and only if its bone counts agree, its coordinates fit and, with bones, its frame count fits the field; it is then rebuilt exactly over all frames, bones and axes, or rejected by the decoder's limit if it has bones and more than 100,000,000 frames |
| BoneTracks.AnalyzeAnswers | universal_8d_file_engine.py:118-129 | the track of bone j holds the audio cells of its x, y and z over all frames, and the digest is that of all coordinates; besides unequal bone counts only the packing raises |
| BoneTracks.WireOrder | universal_8d_file_engine.py:122 | coordinates are digested frame by frame, bone by bone, x before y before z |
| BoneTracks.ReconstructsIff | universal_8d_file_engine.py:150-162 | any bundle is rebuilt if and only if every axis decodes and reaches the last frame and there are no more tracks than bones; each bone then moves as its track says, bones without a track stay at the origin, and it is exact if and only if the digest fits |
| BoneTracks.ForeignTracks | universal_8d_file_engine.py:159-162 | other tracks in place of the encoder's keep the shape, and are exact if and only if what they rebuild has the digest of the animation |
| BoneTracks.FillRejects | universal_8d_file_engine.py:155-158 | filling raises the error of the first axis that does not decode, or the index error at a track too many or too short |
| BoneTracks.AnalyzeRejects | universal_8d_file_engine.py:120-121 | unequal bone counts are reported exactly if some frame has another count than the first |
| RecordDelta.ReconstructRecords | universal_8d_file_engine.py:201-212 | the dictionary-based decoder equals its specification, base mismatch and missing ids included |
| RecordDelta.AnalyzesIff | universal_8d_file_engine.py:170-173 | two lists are refused as duplicates if and only if an id occurs twice in one of them |
| RecordDelta.RoundTrip | universal_8d_file_engine.py:169-212 | lists with unique ids, and only those, are accepted, and the target is rebuilt in order and byte-exactly |
| RecordDelta.ApplyGives | universal_8d_file_engine.py:205-209 | applying any delta to any base raises exactly if an id of the order is in neither, and otherwise gives for each id its last upserted record, or else its last record in the base |
| RecordDelta.ForeignDelta | universal_8d_file_engine.py:203-212 | with any other base or delta the decoder holds exactly for another base digest, and is exact if and only if the result has the target's digest |
| RecordDelta.DeltaIsMinimal | universal_8d_file_engine.py:174-176 | any other delta that rebuilds the target lists the same order and upserts at least the same ids |
| ActionLedger.BeginKeepsDiscipline | core/execution_continuity.py:179-233 | beginning keeps every action of a key but the last FAILED |
| ActionLedger.UpdateKeepsDiscipline | core/execution_continuity.py:235-265 | so does any update |
| ActionRuns.EveryRunIsDisciplined | core/execution_continuity.py:179-265 | in every interleaving of any clients, stale or dirty copies included, all actions of a key but the last are FAILED, and the file always loads |
| ActionRuns.StepIsListStep | core/execution_continuity.py:179-308 | one call leaves the list as it is, or edits exactly one slot, or adds exactly one RUNNING action; the edited slot was not terminal, keeps all seven immutable fields, and enters RESUMED only from INTERRUPTED or HOLD; a call that raises changes nothing |
| ActionRuns.BeginAcceptsIff | core/execution_continuity.py:183-233 | in a reachable file an action may begin if and only if its id is new, its key is not empty and every earlier action of the key FAILED |
| ActionRuns.CompletionIsFinal | core/execution_continuity.py:235-330 | completion stores DONE with the effect; completing again with the same effect is accepted without change, another effect, or a failure with whatever error and tool effect, is refused |
| ActionRuns.TerminalForever | core/execution_continuity.py:249-252 | a terminal action stays in its place, unchanged, through every continuation |
| ActionRuns.DoneClosesKey | core/execution_continuity.py:186-212 | once an action is DONE it is the last of its key in every continuation and all others of the key are FAILED |
| ActionRuns.ResumedLeavesInterruption | core/execution_continuity.py:253-260 | a step into RESUMED leaves INTERRUPTED or HOLD in the file |
| ActionRuns.NoInterruptionResumedTwice | core/execution_continuity.py:292-308 | over whole runs resumptions never outnumber interruptions |
| ActionRuns.FindReturnsDone | core/execution_continuity.py:339-345 | if an action of the key is DONE the lookup returns that very action, under any clock |
| ActionRuns.FindReturnsLast | core/execution_continuity.py:339-345 | under a strictly increasing clock the lookup returns the action of the key that began last |
| ActionCalls.LoadsIff | core/execution_continuity.py:123-154 | a file loads if and only if every action has all fields, a known state, a key, nothing to resume from once finished, and an id of its own |
| ActionCalls.BeginAnswers | core/execution_continuity.py:183-233 | beginning is refused for a used id, a DONE action of the key, an unfinished one, an empty key, in this order, and otherwise appends the RUNNING action with all fourteen fields as requested |
| ActionCalls.UpdateAnswers | core/execution_continuity.py:235-265 | an update of a stored action is refused for a changed immutable field, any change of a terminal action, a resumption from elsewhere than INTERRUPTED or HOLD, or a finished action with something to resume; otherwise the given fields and the time are stored and nothing else |
| ActionCalls.UpdateRefuses | core/execution_continuity.py:235-241 | another id, an unknown state, a file that does not load and an unknown action are refused, in this order |
| ActionCalls.ResumeAnswers | core/execution_continuity.py:292-308 | over an up-to-date copy resuming succeeds if and only if the action is INTERRUPTED or HOLD; it is then RESUMED with the given process and resumption point, no error, the present time, and every other field and slot unchanged |
| ActionCalls.ResumeTrustsCopy | core/execution_continuity.py:299-301 | an action the client's copy does not hold, or holds in another state, is refused whatever the file says |
| ActionCalls.CompleteAnswers | core/execution_continuity.py:310-319 | completing any unfinished action stores DONE, the effect, nothing to resume, no error, the present time, and nothing else |
| ActionCalls.FailAnswers | core/execution_continuity.py:321-330 | failing any unfinished action stores FAILED, the error, the tool effect, nothing to resume, the present time, and nothing else |
| ActionCalls.FindAnswers | core/execution_continuity.py:339-345 | the lookup finds nothing if and only if no action has the key, and otherwise the latest by time and then id, of the DONE ones if there are any |
| ActionClient.ReadLedger | core/execution_continuity.py:123-140 | the load loop accepts exactly valid ledgers with distinct ids |
| ActionClient.Locate | core/execution_continuity.py:173-177 | the search loop finds the first action with the id |
| ActionClient.Client.Reload | core/execution_continuity.py:388-392 | replaces the client's copy by the file's, or raises and keeps it |
| ActionClient.Client.BeginAction | core/execution_continuity.py:179-233 | file, copy and reply are those of the specification, refusals included |
| ActionClient.Client.UpdateAction | core/execution_continuity.py:235-265 | file, copy and reply are those of the specification, including the dirty copy a failed validation leaves |
| ActionClient.Client.ResumeAction | core/execution_continuity.py:292-308 | pre-checks the possibly stale copy, then updates |
| ActionClient.Client.CompleteAction | core/execution_continuity.py:310-319 | an update to DONE |
| ActionClient.Client.FailAction | core/execution_continuity.py:321-330 | an update to FAILED |
| ActionClient.Client.FindByIdempotencyKey | core/execution_continuity.py:339-345 | reloads and returns the lookup's result; the file is not written |
| WorkLedger.UpdatedValidIff | core/work_ledger.py:66-74 | an edited valid task is valid if and only if list fields were given lists |
| WorkCalls.LoadsIff | core/work_ledger.py:51-74 | a task list is valid if and only if every task has all fields, a known state and lists in the three list fields, and no id occurs twice |
| WorkCalls.CreateAnswers | core/work_ledger.py:104-112 | a creation, with the present time unless LAST_UPDATE is given, is refused for an incomplete task or a used id, and otherwise appended and saved |
| WorkCalls.UpdateAnswers | core/work_ledger.py:114-133 | an update of a closed task is refused unless it changes nothing; an open task gets the changes and the present time and nothing else, and is saved or, for a non-list in a list field, left in the copy |
| WorkCalls.UnknownRefused | core/work_ledger.py:98-119 | another TASK_ID, an unknown state and an unknown task are refused, in this order |
| WorkCalls.CompleteAnswers | core/work_ledger.py:135-174 | a completion is refused if and only if the task is closed; otherwise the task is DONE, its evidence is the old items followed by the given one, nothing blocks it, and it is sealed at this time, under the given head or UNSPECIFIED, over its scope and all its evidence; every other field is kept |
| WorkCalls.ScopeTells | core/work_ledger.py:149-158 | two tasks have the same scope digest if and only if they agree in all eight scope fields |
| WorkCalls.ReopenAnswers | core/work_ledger.py:176-216 | a reopening is refused unless reason, authority and a real next action are given and the task is DONE; otherwise it is an unsealed, unblocked TODO with one more history entry that holds the old seal, or the digest of the task if it had none; every other field is kept |
| WorkCalls.SpacesAre | core/work_ledger.py:184-189 | the characters that `strip` removes, by code point |
| WorkCalls.BlockAnswers | core/work_ledger.py:218-223 | blocking an open task stores BLOCKED and the blocker behind the others unless it was among them; a closed one accepts only what it already says |
| WorkCalls.ListingAnswers | core/work_ledger.py:220 | what `list` makes of a spoiled BLOCKERS: the letters of a text, the keys of a dictionary, an error for null |
| WorkCalls.BlockSpoiled | core/work_ledger.py:218-223 | a BLOCKERS that is no list is made one, or the call raises |
| WorkCalls.CompleteSpoiled | core/work_ledger.py:145-147 | evidence cannot be added to a D4_EVIDENCE that is no list; without any the completion is refused by the final validation |
| WorkCalls.ReopenSpoiled | core/work_ledger.py:206-214 | a reopening mends BLOCKERS and is refused exactly if another list field is no list |
| WorkRuns.SavesOrLeaves | core/work_ledger.py:76-96 | a call either saves, then holding the file's digest, or leaves file and digest alone |
| WorkRuns.RefusedKeepsCopy | core/work_ledger.py:104-223 | a typed call that does not save leaves the copy of an up-to-date client untouched |
| WorkRuns.NoLostUpdates | core/work_ledger.py:46-133 | a client whose openings were not raced and whose calls are typed changes the file only by its operation applied to the content then in the file, whatever the other clients do |
| WorkRuns.FileAlwaysLoads | core/work_ledger.py:51-64 | in typed runs every reachable file can be loaded, races and clocks notwithstanding |
| WorkRuns.DriftIsFinal | core/work_ledger.py:76-80 | a client whose digest is not the file's never writes again until it is opened anew |
| WorkRuns.FaithfulIff | core/work_ledger.py:46-49 | a client holding the current digest loses no update if and only if its copy is the file's |
| WorkRuns.RaceLosesUpdate | core/work_ledger.py:46-49 | a concrete run in which a save between the two reads of an opening is lost |
| WorkRuns.RejectedValueStays | core/work_ledger.py:114-133 | the final validation of an update fails exactly for a non-list in a list field; the file is untouched and the copy differs in that one slot, which keeps the rejected value |
| WorkRuns.SaveLoadsIff | core/work_ledger.py:51-133 | for any copy with distinct ids, a call that changes the file leaves it loadable if and only if every task of the copy but the one the call edits is valid |
| WorkRuns.RunLoadsIff | core/work_ledger.py:46-133 | the same in every run, whatever was raced or rejected before |
| WorkRuns.RejectedValueIsPersisted | core/work_ledger.py:104-223 | right after one rejected update on an up-to-date copy, a call of that client that changes the file leaves it loadable if and only if it is about the same task and gives a list to every spoiled list field |
| WorkRuns.RepairGetsThroughIff | core/work_ledger.py:114-133 | a further update of the spoiled open task succeeds if and only if it is typed and covers every spoiled field |
| WorkRuns.CreationPersistsRejectedValue | core/work_ledger.py:104-112 | creating another task succeeds and makes the file unloadable |
| WorkRuns.TwoSpoiledTasks | core/work_ledger.py:114-133 | with two spoiled tasks such a repair of one gets through and writes out the other |
| WorkRuns.ClosedTaskChange | core/work_ledger.py:114-223 | on a faithful copy a call that changes a closed task is a reopening of it with all arguments given |
| WorkRuns.ClosedChangesOnlyByReopening | core/work_ledger.py:114-223 | over whole runs a DONE or sealed task changes in no step of a client that opened unraced and calls typed but by such a reopening, which leaves an unsealed TODO with one more history entry carrying the previous seal; sealed tasks that are not DONE never change |
| WorkScheduler.NextIsFirstReady | core/work_ledger.py:243-265 | a task is returned if and only if one is ready, that is TODO or DOING, unblocked, with a real next action and its known dependencies DONE; and against every other ready task it comes first by verified id, then P0, P1, P2, P3 and anything else, then DOING, then id |
| WorkScheduler.OpenListIsSorted | core/work_ledger.py:225-234 | the open tasks, each once, in that order |
| WorkScheduler.NextIsUniqueMinimum | core/work_ledger.py:225-265 | the ranks the code computes make the returned task the unique minimum of the ready ones |
| WorkScheduler.NeverStuck | core/work_ledger.py:236-265 | while a workable ledger without deadlocks has an open task, some task is returned |
| WorkScheduler.RoundCompletesOne | core/work_ledger.py:135-174 | one round turns exactly the scheduled task DONE, under a seal that matches its scope and evidence |
| WorkScheduler.DrainEnds | core/work_ledger.py:135-265 | in any workable ledger draining completes one task per round and ends where nothing is scheduled |
| WorkScheduler.DrainsIffDeadlockFree | core/work_ledger.py:135-265 | draining turns every task DONE, in exactly as many rounds as tasks were open, if and only if no tasks wait for each other |
| WorkScheduler.RankedIsDeadlockFree | core/work_ledger.py:236-241 | dependencies that a rank falls along admit no deadlock |
| WorkScheduler.DeadlockFreeIsRanked | core/work_ledger.py:236-265 | conversely a workable ledger without deadlocks has such a rank, the order of any drain |
| WorkScheduler.DrainIsTopological | core/work_ledger.py:236-241 | in any workable ledger a task is completed only after every dependency that is a known task is DONE |
| WorkScheduler.StuckIffDeadlocked | core/work_ledger.py:236-256 | a workable ledger returns nothing if and only if all its open tasks wait for each other |
| WorkScheduler.DeadlockIsPermanent | core/work_ledger.py:236-256 | tasks that wait for each other are never returned and stay so after any round |
| WorkScheduler.TwoTasksDeadlock | core/work_ledger.py:236-256 | two ready tasks that depend on each other are a deadlock, and nothing is returned |
| WorkScheduler.BlockedIsParked | core/work_ledger.py:218-223 | a blocked task keeps its blockers in order, gains this one at most once, and is not returned |
| WorkClient.Client.SaveCopy | core/work_ledger.py:76-96 | compare-and-swap on the file's content |
| WorkClient.Client.CreateTask | core/work_ledger.py:104-112 | file, copy and reply are those of the specification |
| WorkClient.Client.UpdateTask | core/work_ledger.py:114-133 | file, copy and reply are those of the specification, including the edited copy a failed validation or a drift leaves |
| WorkClient.Client.CompleteTask | core/work_ledger.py:135-174 | file, copy and reply are those of the specification |
| WorkClient.Client.ReopenTask | core/work_ledger.py:176-216 | file, copy and reply are those of the specification |
| WorkClient.Client.BlockTask | core/work_ledger.py:218-223 | file, copy and reply are those of the specification |
| WorkClient.Client.GetNextAction | core/work_ledger.py:243-265 | returns id and next action of the scheduled task |
| Crawler.Frontier | web_crawler_advanced.py:49-75 | whatever is within reach has been expanded in time or something no deeper still waits in the queue |
| Crawler.FirstVisitIsShortest | web_crawler_advanced.py:55-59 | an URL taken from the queue for the first time is at its link distance |
| Crawler.QueueLinks | web_crawler_advanced.py:70-73 | the inner loop queues the links that are not visited, duplicates included |
| Crawler.Crawl | web_crawler_advanced.py:49-75 | for any web and depth the crawl ends and reports exactly the fetchable URLs within that many links, once each, in nondecreasing distance, with their links |
| CapabilityGraph.RankedIsAcyclic | core/capability_internalization.py:203-220 | a finish order of the graph excludes unknown dependencies and cycles |
| CapabilityGraph.Checker.Visit | core/capability_internalization.py:207-218 | the recursion ends; acceptance keeps a finish order, a cycle error comes with a cycle from the named id through active elements, a missing error names an unregistered dependency of a registered capability |
| CapabilityGraph.ValidateDependencyGraph | core/capability_internalization.py:203-220 | accepts if and only if every dependency is known and there is no cycle, and then yields a ranking; otherwise the named id is an unregistered dependency or lies on a cycle |
| CapabilityGraph.Close | core/capability_internalization.py:324-331 | the worklist loop ends with the least set that contains the seeds and is closed under dependencies |
| CapabilityGraph.ClosureIsReachable | core/capability_internalization.py:324-331 | the least closure is exactly what can be reached from the seeds along declared dependencies |
| CapabilityGraph.MissingAreSeeds | core/capability_internalization.py:332 | in a loaded registry only seeds can be missing |
| CapabilityContext.SortedListIsUnique | core/capability_internalization.py:332 | a set has one sorted list, so comparing lists compares sets |
| CapabilityContext.BuildProjection | core/capability_internalization.py:308-386 | the builder's requirement lists are the sorted closure and its unregistered part |
| CapabilityContext.ValidIdIff | core/capability_internalization.py:310 | an id is valid if and only if it is the prefix, at least one capital, digit or underscore, and the suffix |
| CapabilityContext.BuiltSays | core/capability_internalization.py:308-385 | a built projection requires, sorted, exactly what a requested id, the dynamic context or a row sharing a source with the task leads to along declared dependencies, lists what of it has no row, and has one entry per row that says whether it is required; it claims no authority |
| CapabilityContext.AcceptedIff | core/capability_internalization.py:389-442 | the validator accepts if and only if the hash is that of the projection, it is about this task, holds one entry with a valid id of its own for each of the eight classes, all among the given references, states its requirements honestly and closed, and claims neither authority nor readiness |
| CapabilityContext.AlteredIsRejected | core/capability_internalization.py:394-396 | under a hash that tells them apart, no projection but the original is accepted with the original's hash |
| CapabilityContext.RejectionIsReal | core/capability_internalization.py:392-440 | each of the rejections names something that is wrong |
| CapabilityContext.AcceptedIsClosed | core/capability_internalization.py:389-442 | the validator accepts only dependency-closed requirements with exact coverage and the right state |
| CapabilityContext.BuiltIsAccepted | core/capability_internalization.py:308-442 | every projection built from a loaded registry for a valid request is accepted by the validator |
| ReleasePublish.AtMostOneHolder | tools/build_w7tp_small_agent_release.py:999-1020 | in every interleaving, file operations failing at any point, at most one builder owns the staging directory |
| ReleasePublish.RenameIsSafe | tools/build_w7tp_small_agent_release.py:1044-1056 | a builder about to rename faces an absent target and a complete staging directory |
| ReleasePublish.TargetIsForever | tools/build_w7tp_small_agent_release.py:1032-1074 | once the target exists it never changes |
| ReleasePublish.TargetIsNeverPartial | tools/build_w7tp_small_agent_release.py:1044-1074 | the target is what it was at first or the complete expected release |
| ReleasePublish.ReturnedMeansPublished | tools/build_w7tp_small_agent_release.py:951-978 | every builder that returns does so on exactly the expected content, which stays |
| ReleasePublish.AtMostOneBuilt | tools/build_w7tp_small_agent_release.py:1055-1074 | at most one builder reports BUILT, and none where a target was there at first |
| ReleasePublish.ExactlyOneBuilt | tools/build_w7tp_small_agent_release.py:999-1074 | in a run without faults that starts with neither target nor staging, once all builders that started have finished, exactly one reports BUILT, the target is the release, no staging directory is left, and the others report ALREADY_BUILT or met a build in progress |
| ReleasePublish.StagingIsHeld | tools/build_w7tp_small_agent_release.py:1018-1058 | without faults a staging directory exists only while some builder holds it |
| ReleasePublish.CleanupEnds | tools/build_w7tp_small_agent_release.py:1044-1066 | a builder that gives up removes every entry of the staging directory, in any order, then the directory, and only then goes on |
| ReleasePublish.LoneBuilderBuilds | tools/build_w7tp_small_agent_release.py:999-1074 | a builder left to itself ends in BUILT, with the release as target and no staging, after 2n + 7 steps for n files |
| ReleasePublish.TargetIsJudged | tools/build_w7tp_small_agent_release.py:1032-1043 | a builder that finds a target ends in ALREADY_BUILT if it is the expected release and in a conflict otherwise, after n + 3 steps |
| ReleasePublish.ConflictIsRefused | tools/build_w7tp_small_agent_release.py:963-973 | no builder returns on a target with other content |
| ReleaseInventory.PathsAreReadable | tools/build_w7tp_small_agent_release.py:938-946 | the paths of a tree are exactly those at which there is a file |
| ReleaseInventory.Inventory | tools/build_w7tp_small_agent_release.py:927-948 | the stack walk ends with the set of all file paths, or a conflict exactly when a link, a special entry or a directory that cannot be listed is anywhere in the tree |
| ReleaseInventory.VerifyExpected | tools/build_w7tp_small_agent_release.py:951-978 | a target is verified if and only if it is a directory that holds exactly the expected files, all readable; it is not found if and only if it is no directory of its own; anything else is a conflict |
| MetricMemory.Stream | taiji_metric_memory_core.py:40-47 | the loop over hash blocks yields the key stream of the requested length |
| MetricMemory.XorIsInvolution | taiji_metric_memory_core.py:49-50 | masking twice with the same key gives the bytes back |
| MetricMemory.StreamIsBlocks | taiji_metric_memory_core.py:40-47 | bytes 32k to 32k + 32 of the key stream are the k-th hash block of the address |
| MetricMemory.WriteAnswers | taiji_metric_memory_core.py:113-120 | the three disks hold the text in order, a third each to within one byte, every byte under its key byte; other addresses are untouched |
| MetricMemory.ReadAnswers | taiji_metric_memory_core.py:122-131 | reading unmasks the three parts and parses them, and fails exactly if a part is missing or they do not parse |
| MetricMemory.FragmentsRoundTrip | taiji_metric_memory_core.py:112-131 | a value that survives JSON is read back from its three parts for every length, and other addresses are untouched |
| MetricMemory.CacheIsTransparent | taiji_metric_memory_core.py:133-194 | after any sequence of sets, gets, evictions and restarts a read returns the value set last, from RAM or disks, and fails only if there is none, provided the codes of the run have addresses of their own and its values survive JSON |
| MetricMemory.SharedAddressLeaks | taiji_metric_memory_core.py:28-29 | if two codes share an address, a read of one returns what was set at the other |
| MetricMemory.TransparentIffApart | taiji_metric_memory_core.py:28-194 | for values that survive JSON, all runs over a set of codes are transparent if and only if no two of these codes share an address |
| MetricMemory.SomeEnvironmentServes | taiji_metric_memory_core.py:28-47 | whatever a run does, some environment meets these provisos |
| MetricMemory.GetAnswers | taiji_metric_memory_core.py:181-194 | a read answers from RAM if and only if the code is there, else from the disks, else with a dead letter |
| MetricMemory.UseAnswers | taiji_metric_memory_core.py:141-180 | a set or get protects exactly the five codes around it, keeps of the other entries exactly those not older, unchanged, and only a set writes to the disks |
| MetricMemory.NothingOlderStays | taiji_metric_memory_core.py:151-180 | after a set or get no RAM entry is older than its code |
| MetricMemory.JustUsedIsInRam | taiji_metric_memory_core.py:161-190 | the value just set or read is in RAM |
| MetricMemory.EvictionSparesNeighbours | taiji_metric_memory_core.py:141-159 | an explicit eviction spares exactly the neighbours of the last code used and what is recent enough |
| MetricMemory.Memory.Evict | taiji_metric_memory_core.py:151-159 | deletes what is neither protected nor recent and counts it |
| MetricMemory.Memory.Set | taiji_metric_memory_core.py:161-174 | the new state is the specified one |
| MetricMemory.Memory.Get | taiji_metric_memory_core.py:176-194 | reply and new state are the specified ones |
| EvidenceChain.LastHash | services/w7tp_evidence_ledger.py:19-33 | the loop finds the last line that is not blank and the hash that stands for it: its own, that of the whole object if it has none, that of the text if it is not JSON; other JSON values raise |
| EvidenceChain.Ledger.CommitEvidence | services/w7tp_evidence_ledger.py:36-60 | appends one event sealed over the last hash, or raises and appends nothing |
| EvidenceChain.CommitBegins | services/w7tp_evidence_ledger.py:20-28 | over a file with nothing but blank lines the event carries the genesis marker |
| EvidenceChain.CommitCarries | services/w7tp_evidence_ledger.py:23-60 | after any last line that is not blank, blank ones behind it or not, the event carries the hash that line states, else the hash of the object, or of the text if it is not JSON; after another JSON value nothing is committed |
| EvidenceChain.EveryLinkIsSealed | services/w7tp_evidence_ledger.py:47-58 | in a chain every event carries its own hash and the hash of the one before it, the first the genesis marker |
| EvidenceChain.ChainsAreCommitted | services/w7tp_evidence_ledger.py:36-60 | a file is a chain if and only if sequential commits to an empty file produce it, namely those of its payloads, and the payloads of what commits produce are the committed ones |
| EvidenceChain.SomeHashesAreCollisionFree | services/w7tp_evidence_ledger.py:33-58 | hashes as the chain theorems assume them exist |
| EvidenceChain.FinalHashDetermines | services/w7tp_evidence_ledger.py:19-60 | two chains that end in the same event hash are identical in length and content |

## Left out

- Locks, fsync, temporary files and crashes: a call under the lock is one atomic step, `os.replace` and `os.rename` are atomic, and I/O fails only in the release builders.
- Re-entrancy of `continuity_effect_scope`: the depth counter of a thread is not modelled; each call takes the lock once.
- Clocks: a reading is a parameter of each call. Theorems that need readings to increase say so; one reading stands for the two or three a work-ledger call takes.
- WorkRuns.NoLostUpdates: assumes increasing clock readings, so that no file content repeats, and a collision-free file digest.
- WorkLedger.UpdatedValidIff: tasks whose scalar fields have unhashable or non-text types are not distinguished further. On a dirty copy, a BLOCKERS that is a time stamp or digest is listed as one item, the scheduler takes a null DEPENDENCIES for none where the code raises, and any list operation the code cannot perform is one error value.
- Error texts of refused calls, which name the newest conflicting action, are not modelled.
- ActionRuns: `recovery_decision`, `get_resumable_action` and `list_open_actions` are queries that change nothing.
- BoneTracks.RoundTrip: bones are triples; longer tuples, which the encoder flattens into its digest, are not modelled.
- RecordDelta.RoundTrip: equality of records stands for equality of their canonical JSON.
- Block codec of the file engine (`analyze_binary_or_doc_blocks`): the same blocks and sub-packets as the second delta mode of `FileDelta`.
- Legacy reconstructors, report dictionaries, file names and byte counts of reports.
- Python's recursion limit in the dependency check; JSON schema validation of the registry is the hypothesis `LoadedRegistry`, with ids matched by the validator's own pattern.
- CapabilityContext.BuildProjection: source bindings, file hashes and index entries of the projection are not modelled; the validator does not look at them.
- Crawler.Crawl: fetching and link extraction are one fixed function; reports are represented by their URL and links.
- ReleasePublish: modes, links and unreadable entries (those are the subject of `ReleaseInventory`), and the patch variant of the verification; builders compute the same expected bytes.
- ReleaseInventory.Inventory: a directory that cannot be listed is reported when it is found, not when it is popped; both are the same conflict.
- MetricMemory.CacheIsTransparent: values are immutable; the code keeps the caller's own object in RAM, so a caller that mutates a stored list reads the mutation until eviction and the old list after it.
- MetricMemory: base64, the SQLite event log and dead-letter files; coordinates are exact reals, so the rounding of `x + 1` and the two zeros are not modelled; one process at a time uses the fragments; a fragment write does not fail midway.
- EvidenceChain: dead-letter copies; an `event_hash` that is not a string; concurrent commits, for which the source takes no lock.
