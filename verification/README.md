# Verified models of the Windows driver samples

This project models the parts of the driver samples that are protocols, ring buffers and byte
transformations, and proves what they keep, conserve and refine. It is written in Dafny 4.11;
`dafny verify dfyconfig.toml` checks all of it.

Sequential code is modelled as classes over arrays and fields, each method proved against a function
of the old state; the promises of the code are then proved about those functions. Code whose point is
the interleaving of threads, timers, DPCs, work items and completions is modelled as a state machine
whose steps are the statements another processor can observe, with one inductive invariant over every
run; beside it stand what whole calls come to from every reachable state, and what the fields say about
the events of a run. Where a promise does not hold of the code, the code is modelled as it is, and the exact condition
under which the promise holds is proved; for the state machines a run from the start shows the failure.

## The modules

* `SaveRing`, `SaveData`: the four-frame ring of `CSaveData` and the append log it refines.
* `WaveFormat`, `WaveFile`, `WaveWriter`: the RIFF/WAVE file ("Multimedia Programming Interface and
  Data Specifications 1.0", chapter 3, "Waveform Audio File Format (WAVE)") that `CSaveData` writes
  and `CWaveObject` parses, and the path from recorded bytes to the parsed wave.
* `WaveLoop`, `WaveObject`: the parser and the looping source of avssamp.
* `ToneGenerator`: frames of a tone cut into buffers of any size.
* `CapturePipeline`, `CaptureHardware`, `CapturePin`: the avshws capture path on 64-bit builds, from
  the pin's queue through the scatter/gather list to the completed frames.
* `MappedCompletion`: `CompleteMappings` as built for x86.
* `StopHandshake`, `TimerGrid`: pin state changes against timer and DPC, and the times of interrupts.
* `Pixels`, `Overlay`, `TextOverlay`, `TextDrawing`, `ImageSynthesizer`, `FormatCheck`: image synthesis down to the
  single pixel, and the format check that keeps it inside its buffer.
* `HfpDevices`, `HfpNotifications`, `ScoStream`, `SubdeviceCache`: the Bluetooth hands-free part of
  sysvad's adapter.
* `DelayedCompletion`, `EchoService`: the TrEE test services.
* `Words`: machine words, byte copies and facts about sequences.

## What turned out not to hold

* `WriteData` tests only the current frame's flag before a write that may run into the next frame. The
  log is right for all data of a given length if and only if `Overruns` is false
  (`SaveRing.WriteAppendsIff`); otherwise bytes that are queued for the file can change. Five writes and
  one worker are enough to get there (`SaveRing.OverrunExample`).
* The block-align mask of the wave reader means "whole blocks" if and only if the block size is a power
  of two (`WaveFormat.MaskMeansWholeBlocks`); six-byte blocks are a counterexample.
* The reader's chunk scan ends unless it comes to a foreign chunk of size 2^32 - 8
  (`WaveFile.EndlessIff`, `WaveFile.ChunksEndlessIff`); a file of twenty bytes is such a one
  (`WaveFile.EndlessExample`).
* A skipped audio frame moves the wave as a captured one would if and only if the ULONG sum does not
  wrap or 2^32 is a whole number of loops (`WaveLoop.SkipIsSynthesizeIff`). Whatever is captured,
  dropped or cut short, the wave stands where capturing everything would have left it if and only if
  what was lost is a whole number of loops (`WaveLoop.SamePositionIff`, `WaveLoop.ShortBuffersExample`).
* `GenerateSine` gives up the whole residual even when only part of it fits: nothing is lost if and only
  if every call covers the residual it finds (`ToneGenerator.NothingLostIff`,
  `ToneGenerator.ShortResidualExample`).
* `FillScatterGatherBuffers` takes exactly one entry for one image if and only if the image size is
  exactly the copied rows (`CapturePipeline.FillsOnceIff`).
* An interrupt that completes the very frame `Process` has programmed but not advanced past does not
  deliver it. Over a whole run all completed frames are delivered if and only if there was no such
  interrupt (`CapturePipeline.DeliversAllIff`, `CapturePipeline.DisturbedExample`); otherwise exactly
  one stays behind.
* A clone of an empty frame without a list entry is neither queued nor remembered
  (`CapturePipeline.ProgramKeepsIff`, `CapturePipeline.OrphanExample`). After a stop and a restart the
  clones correspond to the frames in every run if and only if no clone was pending at the stop
  (`CapturePipeline.RestartableIff`, `CapturePipeline.PendingExample`): `CleanupReferences` leaves
  `m_PreviousStreamPointer` set, and every later run is one clone short (`CapturePipeline.RestartIsShort`).
* The comment on `OverlayText` promises clipping at the bottom, but the code counts a line of space
  only for the copies of a glyph row. Nothing is written outside the image if and only if the text fits
  in the sense of `TextOverlay.Fits` (`TextDrawing.FitsIff`): on an opaque background with a column left,
  that at most one line or all lines are there (`TextDrawing.OpaqueFitsIff`). The two overlays of
  `FakeHardware` fit if and only if the image is at least 27 lines high and 10 pixels wide
  (`FormatCheck.ClockAndCounterFitIff`); at 27 lines the clock's place wraps to `POSITION_CENTER`.
* An accepted packed 4:2:2 format of odd width whose buffer is no larger than the image has no room for
  the last byte of its last pixel (`FormatCheck.AcceptedPixelsInside`), and the bars are drawn on the
  first line even of an image without lines (`FormatCheck.BarsInsideIff`).
* The interrupt count and the deadline set on unpausing are right for 2^32 - 1 periods; the exact
  conditions are `TimerGrid.UnpauseKeepsIff` and `TimerGrid.DpcKeepsIff`.
* The bars are eighths of the width up to 2^29 columns (`Overlay.BarsAreEighthsIff`).
* The comment in `AcquireHardwareResources` gives negative heights the lower left origin; the code
  flips when the height is not negative, and the model follows the code.
* The destructor of a hands-free device asserts that the device is not running. It is, for exactly the
  devices for which `Init` succeeded and no task could be allocated (`HfpDevices.FreedWhileRunningIff`,
  `HfpDevices.FreedWhileRunningExample`).
* A notification request that cannot be sent again ends the work item's loop and can strand the others
  in the collection (`HfpNotifications.StrandedIff`, `HfpNotifications.StrandedExample`).
* `InstallEndpointFilters` reports success without a topology filter when only that one could not be
  installed (`SubdeviceCache.AdapterCommon.InstallEndpointFilters`).
* The IOCTL variant of delayed completion never completes a request whose cancel routine was called
  before the work item took the request back and after the timer had gone off
  (`DelayedCompletion.IoCompletedAtMostOnce`, `DelayedCompletion.NeverCompletedExample`).
* The echo service's repeat loop ends if and only if there is input (`EchoService.RepeatEndsIff`), and
  its reverse function leaves the byte count unset when the output is too small.

## Model

| member | source | states |
|---|---|---|
| SaveRing.FirstDone | audio/sysvad/savedata.cpp:410-439 | the work item taken from the pool is the first whose event is signalled; none if all are busy |
| SaveRing.WriteShaped | audio/sysvad/savedata.cpp:945-1000 | index * size <= offset < (index + 1) * size after every write, overruns included |
| SaveRing.WriteAppends | audio/sysvad/savedata.cpp:925-1012 | a write without overrun keeps queue, flags and pool consistent and appends exactly the accepted bytes to the log |
| SaveRing.WriteAppendsIff | audio/sysvad/savedata.cpp:945-957 | for a given length that is so for all data if and only if the write does not run into a frame still queued |
| SaveRing.OverrunWitness | audio/sysvad/savedata.cpp:945-957 | data of that length whose write changes a byte already in the log |
| SaveRing.WorkKeepsLog | audio/sysvad/savedata.cpp:676-700 | a worker moves the oldest frame from memory to the file without changing the log |
| SaveRing.WaitAllPayload | audio/sysvad/savedata.cpp:876-906 | after WaitAllWorkItems the file's payload is the whole log |
| SaveRing.WaitAllIdle | audio/sysvad/savedata.cpp:876-906 | after it no work item is queued or busy and no frame is in use |
| SaveRing.WaitAllTwice | audio/sysvad/savedata.cpp:876-906 | a second WaitAllWorkItems leaves the payload alone if and only if no partial frame is left, as the offset is not reset |
| SaveRing.PoolSuffices | audio/sysvad/savedata.cpp:410-439 | of the fifteen work items at most four are busy, so a free one is always found |
| SaveRing.RunRefinesLog | audio/sysvad/savedata.cpp:911-1013 | over every interleaving of writes without overrun and workers, failing ones included, the ring is a queue of bytes: each worker takes the next frame of what was accepted, into the file or, if its write fails, nowhere, and the rest is in memory |
| SaveRing.StoppedFileHoldsLog | audio/sysvad/savedata.cpp:876-1013 | from a new stream to the stop the payload is the accepted bytes without the frames whose writes failed, however they were split and the workers scheduled; it is all of them if and only if no write failed |
| SaveRing.OverrunExample | audio/sysvad/savedata.cpp:945-957 | a run from a new stream after which writing a frame would overrun |
| SaveData.SaveData.constructor | audio/sysvad/savedata.cpp:68-92 | a new object is the empty ring with all events signalled |
| SaveData.SaveData.Disable | audio/sysvad/savedata.cpp:187-195 | only the flag that turns writing off changes |
| SaveData.SaveData.GetNewWorkItem | audio/sysvad/savedata.cpp:410-439 | the loop over the pool finds the first free work item |
| SaveData.SaveData.SaveFrame | audio/sysvad/savedata.cpp:851-872 | a free work item is made busy and queued for the frame; without one nothing happens |
| SaveData.SaveData.FillFrame | audio/sysvad/savedata.cpp:949-979 | the first copy, the end-of-frame test and the loop to the start of the buffer |
| SaveData.SaveData.WriteLeftOver | audio/sysvad/savedata.cpp:981-1000 | the left-over bytes go to the next frame if it is free |
| SaveData.SaveData.StoreData | audio/sysvad/savedata.cpp:945-1005 | the part of WriteData for a free frame equals the ring's write |
| SaveData.SaveData.WriteData | audio/sysvad/savedata.cpp:911-1013 | the method on the byte buffer equals the ring's write for every state and input |
| SaveData.SaveData.SaveFrameWorkerCallback | audio/sysvad/savedata.cpp:648-701 | the oldest item writes its frame if the file takes it, and frees frame and item either way |
| SaveData.SaveData.WaitAllWorkItems | audio/sysvad/savedata.cpp:876-906 | saves the unfinished frame and runs all items |
| WaveFormat.LeRoundTrip | audio/sysvad/savedata.cpp:324-333 | a number written as bytes is read back |
| WaveFormat.Get16Is | avstream/avssamp/wave.cpp:248-278 | a 16-bit field is its first byte and 256 times its second |
| WaveFormat.Get32Is | avstream/avssamp/wave.cpp:113-134 | a 32-bit field is its four bytes, the lowest first |
| WaveFormat.TagsSpell | audio/sysvad/savedata.cpp:41-44 | the four tags are the bytes of RIFF, WAVE, fmt and data in that order |
| WaveFormat.PcmFields | audio/sysvad/savedata.cpp:332-345 | each field of the format block at its byte offset |
| WaveFormat.DecodeFormatIs | avstream/avssamp/wave.cpp:258-275 | each field read from its byte offset |
| WaveFormat.DecodePcm | avstream/avssamp/wave.cpp:258-275 | a PCM format block read over the front of a WAVEFORMATEX gives the same fields |
| WaveFormat.MaskIsRemainder | avstream/avssamp/wave.cpp:309-316 | for a power of two the block-align mask is the remainder |
| WaveFormat.MaskMeansWholeBlocks | avstream/avssamp/wave.cpp:309-316 | the mask accepts exactly the whole numbers of blocks if and only if the block size is a power of two |
| WaveFile.SkipsForeignChunks | avstream/avssamp/wave.cpp:117-147 | the scan passes any chunks that are not the one sought, to just behind them |
| WaveFile.FindsChunk | avstream/avssamp/wave.cpp:131-134 | it finds the body and size of the sought chunk; an empty one counts as not found |
| WaveFile.ParseIsMeaning | avstream/avssamp/wave.cpp:200-347 | a parse depends on the first format chunk and the first data chunk behind it, and on no other chunk |
| WaveFile.RoundTrip | audio/sysvad/savedata.cpp:105-128 | the finished file of a stream parses to the same format and bytes exactly for PCM, a payload that is not empty and passes the mask; every other case fails with its status |
| WaveFile.FileBytes | audio/sysvad/savedata.cpp:314-370 | the finished file byte by byte: tags spelled out, sizes, every format field at its offset, the payload behind them |
| WaveFile.WavesAreSound | avstream/avssamp/wave.cpp:163-364 | whatever file parses as a wave is RIFF and WAVE, PCM, not empty, passes the mask, and its data stand in the file |
| WaveFile.WithoutMemory | avstream/avssamp/wave.cpp:319-335 | without memory the files that would parse fail with the memory status, the others as before |
| WaveFile.EndlessIff | avstream/avssamp/wave.cpp:141-141 | the reading loop is still reading after any number of passes if and only if it comes to a foreign chunk of size 2^32 - 8 |
| WaveFile.ChunksEndlessIff | avstream/avssamp/wave.cpp:117-147 | for a file that is a list of chunks: a chunk of that size comes before any with the tag sought |
| WaveFile.EndlessExample | avstream/avssamp/wave.cpp:141-141 | a file of twenty bytes on which the parse does not end |
| WaveWriter.SaveFile.constructor | audio/sysvad/savedata.cpp:544-585 | a new file holds the headers of an empty stream |
| WaveWriter.SaveFile.FileWriteHeader | audio/sysvad/savedata.cpp:308-379 | three writes from the start of the file replace the headers and leave the payload |
| WaveWriter.SaveFile.FileWrite | audio/sysvad/savedata.cpp:259-303 | a successful write appends all of the data, a failed one nothing |
| WaveWriter.SaveFile.SetLengths | audio/sysvad/savedata.cpp:105-112 | the lengths computed from the file pointer in 32 bits are those of the payload |
| WaveWriter.SaveFile.Finalize | audio/sysvad/savedata.cpp:97-132 | the destructor leaves the finished file |
| WaveWriter.RecordedWaveIsReadBack | avstream/avssamp/wave.cpp:163-364 | from the stream's writes through ring, workers and headers to the parsed wave the bytes are those accepted, in order, without the frames the file did not take |
| WaveObject.ParseForBlock | avstream/avssamp/wave.cpp:66-158 | the reading loop computes the scan; on failure the position is unchanged |
| WaveObject.WaveObject.ParseAndRead | avstream/avssamp/wave.cpp:163-364 | the status, format and data are those of the parse; on failure no data is kept |
| WaveObject.WaveObject.ReadFormat | avstream/avssamp/wave.cpp:248-278 | the format block's checks and read |
| WaveObject.WaveObject.ReadData | avstream/avssamp/wave.cpp:296-351 | the data block's checks, allocation and read |
| WaveObject.WaveObject.SkipFixed | avstream/avssamp/wave.cpp:421-459 | the pointer and time of the skip, ULONG sum included; nothing for a time that is not positive |
| WaveObject.WaveObject.SynthesizeFixed | avstream/avssamp/wave.cpp:463-554 | the buffer takes wave[(p + i) mod size] at i, its tail is untouched, and pointer and time follow |
| WaveObject.WaveObject.CopyLoop | avstream/avssamp/wave.cpp:524-543 | the chunked copy ends and writes the looped wave |
| WaveObject.AudioCapturePin.CaptureFrame | avstream/avssamp/audio.cpp:468-559 | a frame is captured if a buffer is there and skipped if not, and counted |
| WaveLoop.LoopedAppend | avstream/avssamp/wave.cpp:524-543 | two stretches of the looped wave in a row are one longer one |
| WaveLoop.NoTimeNoMove | avstream/avssamp/wave.cpp:439-500 | an interval that is not positive moves nothing and gives no byte |
| WaveLoop.SkipIsSynthesizeIff | avstream/avssamp/wave.cpp:453-455 | a skip moves the source as a captured frame does if and only if the sum stays in 32 bits or 2^32 is a whole number of loops |
| WaveLoop.AnyMixSamePosition | avstream/avssamp/audio.cpp:520-555 | after any mix of captured and dropped frames pointer and time are as if all had been captured |
| WaveLoop.FrameContent | avstream/avssamp/audio.cpp:520-555 | a captured frame's bytes depend on its number alone |
| WaveLoop.PositionIs | avstream/avssamp/audio.cpp:520-555 | after any frames with buffers of any size, or none, the time is exact and the pointer is behind its place by exactly what was lost to short buffers and wrapped sums |
| WaveLoop.SamePositionIff | avstream/avssamp/wave.cpp:505-550 | the source stands where capturing every frame whole would have left it if and only if what was lost is a whole number of loops |
| WaveLoop.LostIsMissing | avstream/avssamp/wave.cpp:514-517 | while no sum can wrap, what is lost is what short buffers do not take |
| WaveLoop.ShortBuffersExample | avstream/avssamp/wave.cpp:517-517 | one short buffer moves the wave from its place, a second brings it back |
| WaveLoop.BytesForExact | avstream/avssamp/wave.cpp:506-512 | the ULONG byte count is the mathematical one whenever that fits 32 bits |
| ToneGenerator.ChunkingDoesNotMatter | audio/sysvad/ToneGenerator.cpp:139-200 | covering calls, with muted ones in between, deliver one stretch of the frames end to end |
| ToneGenerator.NothingLostIff | audio/sysvad/ToneGenerator.cpp:154-165 | the position keeps up with the delivered bytes if and only if every unmuted call covers its residual |
| ToneGenerator.ShortResidualExample | audio/sysvad/ToneGenerator.cpp:160-165 | three calls from the start that lose a byte of the tone |
| ToneGenerator.ToneGenerator.constructor | audio/sysvad/ToneGenerator.cpp:202-263 | a generator whose Init succeeded stands at the start of the tone |
| ToneGenerator.ToneGenerator.InitNewFrame | audio/sysvad/ToneGenerator.cpp:73-111 | the next frame is written and the phase moves on by one |
| ToneGenerator.ToneGenerator.GenerateSine | audio/sysvad/ToneGenerator.cpp:124-200 | zeros and no move when muted or without floating point state, else the next bytes of the stream |
| ToneGenerator.ToneGenerator.CopyResidual | audio/sysvad/ToneGenerator.cpp:154-167 | the residual continues the stream as far as it fits and is then given up |
| ToneGenerator.ToneGenerator.CopyFrames | audio/sysvad/ToneGenerator.cpp:169-182 | as many whole frames as fit |
| ToneGenerator.ToneGenerator.CopyPartial | audio/sysvad/ToneGenerator.cpp:184-193 | the front of one more frame goes out, the rest is carried over |
| CapturePipeline.ProgramKeepsIff | avstream/avshws/capture.cpp:344-470 | one pass of Process keeps conservation and order if and only if it leaves no clone of an empty frame without an entry |
| CapturePipeline.OrphanExample | avstream/avshws/capture.cpp:371-446 | a run from a Start to such a clone |
| CapturePipeline.FillKeeps | avstream/avshws/hwsim.cpp:680-744 | filling moves entries from the list to the completed count, whatever the image size |
| CapturePipeline.FillsOnceIff | avstream/avshws/hwsim.cpp:720-726 | one entry for one image if and only if the image size is the copied rows |
| CapturePipeline.TickIsOneOrSkip | avstream/avshws/hwsim.cpp:833-836 | each running tick is exactly one completion or exactly one skip |
| CapturePipeline.TicksAddUp | avstream/avshws/hwsim.cpp:833-836 | since a Start the completed mappings and the skipped frames add up to the ticks |
| CapturePipeline.DeltaIsExact | avstream/avshws/device.cpp:752-763 | the 32-bit difference of the totals is the number of mappings completed in between |
| CapturePipeline.InterruptKeeps | avstream/avshws/capture.cpp:1332-1474 | a completion deletes clones in order and keeps the correspondence with the list |
| CapturePipeline.InterruptDeliversIff | avstream/avshws/capture.cpp:1345-1347 | an interrupt delivers all that was completed unless it completes the frame Process has not advanced past; then one frame is missed, if none was before |
| CapturePipeline.FramesConserved | avstream/avshws/hwsim.cpp:559-591 | in every run between Start and Stop programmed = completed + queued, the counters match the list, delivered is a prefix of completed and counted by the frame number, live clones are the rest plus the pending one |
| CapturePipeline.FramesNumbered | avstream/avshws/capture.cpp:1403-1407 | the frame number grows by exactly the frames delivered |
| CapturePipeline.DeliversAllIff | avstream/avshws/device.cpp:752-763 | over every run from a Start the delivered frames are exactly those completed, in programming order, if and only if no interrupt disturbed Process; otherwise exactly the last of them is missing |
| CapturePipeline.UndisturbedClones | avstream/avshws/capture.cpp:371-446 | without disturbance the live clones between ticks are the queued entries plus the pending one |
| CapturePipeline.DisturbedExample | avstream/avshws/capture.cpp:1345-1347 | a run from a Start in which the first frame is completed and not delivered |
| CapturePipeline.ProcessKeeps | avstream/avshws/capture.cpp:314-517 | a whole call of Process keeps all of this for every pattern of failures |
| CapturePipeline.ProcessProgramsAll | avstream/avshws/capture.cpp:344-470 | when nothing fails a call programs every frame with data, in queue order, and leaves none |
| CapturePipeline.ProcessIsRun | avstream/avshws/capture.cpp:344-470 | a call of Process, uninterrupted, is the run of its programming and advancing steps |
| CapturePipeline.ProgrammedAsArrived | avstream/avshws/capture.cpp:344-470 | in every interleaving frames with data are programmed in the order of arrival, none passed over |
| CapturePipeline.RestartableIff | avstream/avshws/capture.cpp:552-568 | after a stop, cleanup and another Start the clones correspond to the frames in every run, with whatever frames, if and only if no clone was pending |
| CapturePipeline.RestartIsShort | avstream/avshws/capture.cpp:552-568 | stopped with a clone pending, every later run is one clone short; stopped without one, none is |
| CapturePipeline.PendingExample | avstream/avshws/capture.cpp:415-446 | a run from a Start that leaves a clone pending |
| CapturePipeline.StopLeavesNothing | avstream/avshws/hwsim.cpp:418-448 | a stop and a cleanup leave list, counters and clones empty |
| CapturePipeline.StartInv | avstream/avshws/hwsim.cpp:204-216 | Start establishes the invariant on a quiet pipeline |
| CaptureHardware.RowLands | avstream/avshws/hwsim.cpp:706-726 | with a pitch of at least the width every byte of the image lands at its row and column |
| CaptureHardware.GapKept | avstream/avshws/hwsim.cpp:720-726 | bytes between and behind the rows are kept |
| CaptureHardware.FilledRows | avstream/avshws/hwsim.cpp:704-726 | byte x of row r of a filled buffer is at r * |pitch| + x where the header gives a pitch of at least a row, of either sign, and at r * width + x where it gives none |
| CaptureHardware.FilledGaps | avstream/avshws/hwsim.cpp:704-726 | everything to the right of the rows and below the last keeps its bytes |
| CaptureHardware.HardwareSimulation.constructor | avstream/avshws/hwsim.cpp:196-240 | the lists and counters of a simulation whose Start succeeded |
| CaptureHardware.HardwareSimulation.ProgramScatterGatherMappings | avstream/avshws/hwsim.cpp:559-591 | one entry at the tail and the counters, or nothing, for buffers of any size |
| CaptureHardware.HardwareSimulation.FillScatterGatherBuffers | avstream/avshws/hwsim.cpp:641-744 | the oldest buffer takes the rows and leaves the list, or the frame starves and nothing changes |
| CaptureHardware.HardwareSimulation.CopyRows | avstream/avshws/hwsim.cpp:704-726 | the row loop at the absolute pitch |
| CapturePin.CapturePin.Process | avstream/avshws/capture.cpp:314-517 | the loop over frames, clones and the pending clone; asks to be called again exactly when a frame is left or none was there |
| CapturePin.CapturePin.ProgramLeading | avstream/avshws/capture.cpp:371-446 | cloning and programming of the leading frame |
| CapturePin.CapturePin.CompleteMappings | avstream/avshws/capture.cpp:1305-1474 | which clones go, and how many frames are counted |
| CapturePin.CapturePin.CleanupReferences | avstream/avshws/capture.cpp:528-572 | all clones go, the previous pointer stays |
| CapturePin.CaptureDevice.Interrupt | avstream/avshws/device.cpp:721-765 | hands the difference of the totals to the pin |
| CapturePin.CaptureDevice.FakeHardware | avstream/avshws/hwsim.cpp:833-845 | fill, count a starved frame, interrupt |
| MappedCompletion.CompleteTwice | avstream/avshws/capture.cpp:1330-1474 | two completions equal one of the sum: clones, offsets, frame numbers and DataUsed |
| MappedCompletion.EachIsTotal | avstream/avshws/capture.cpp:1330-1474 | any spread over interrupts equals the total |
| MappedCompletion.SendsWholeFrames | avstream/avshws/capture.cpp:1349-1358 | deleted clones go in order, numbered consecutively, DataUsed being the sum of all their mappings in 32 bits |
| MappedCompletion.MappedPin.CompleteMappings | avstream/avshws/capture.cpp:1305-1474 | the loop over the clones computes that |
| MappedCompletion.MappedPin.CountMappings | avstream/avshws/capture.cpp:1349-1358 | the inner loop adds the completed mappings to DataUsed |
| StopHandshake.StepKeeps | avstream/avshws/capture.cpp:613-772 | every step of pins, release, timer and DPC keeps the handshake's invariant |
| StopHandshake.DpcKeeps | avstream/avshws/hwsim.cpp:848-866 | the DPC's check, rearm, clear and signal keep it |
| StopHandshake.HandshakeIsSafe | avstream/avshws/device.cpp:364-430 | in every interleaving at most one timer or DPC is outstanding, at most one pin has the hardware, and a DPC that can run has buffer, synthesizer and sink |
| StopHandshake.ReturnsStill | avstream/avshws/hwsim.cpp:308-324 | when Pause(TRUE) or Stop returns nothing is outstanding and the flag is clear |
| StopHandshake.StillUntilTimer | avstream/avshws/hwsim.cpp:391-418 | and so it stays until a timer is set |
| StopHandshake.WaiterIsReleased | avstream/avshws/hwsim.cpp:391-406 | a waiting thread wakes after at most eight steps of the interrupt chain |
| StopHandshake.OthersDoNotDelay | avstream/avshws/device.cpp:477-493 | no step of anyone delays it |
| StopHandshake.CallsAreMet | avstream/avshws/capture.cpp:613-772 | from every reachable state each state change that is not refused can be finished, within a bounded number of steps, and leaves its pin in the state asked for: RUN with interrupts coming and all they need, PAUSE and ACQUIRE without interrupts, STOP without the hardware |
| StopHandshake.HardwareCanBeFreed | avstream/avshws/capture.cpp:613-772 | from every reachable state the hardware can be freed, its pin being unused and nothing outstanding |
| StopHandshake.RefusedCallsChangeNothing | avstream/avshws/device.cpp:364-381 | an Acquire while another pin has the hardware, and a Start without memory, leave everything as it was |
| StopHandshake.AcquireWithoutMemory | avstream/avshws/device.cpp:383-430 | so does an Acquire without memory for a synthesizer, once it has released what it had |
| StopHandshake.BringUpExample | avstream/avshws/capture.cpp:613-772 | a run from the start that brings a pin to RUN with one timer outstanding |
| StopHandshake.ResourcesAreMade | avstream/avshws/device.cpp:364-430 | over every run synthesizer, sink and synthesis buffer are there exactly if the last attempt to make them succeeded and they were not given back since |
| StopHandshake.PausesAreEffective | avstream/avshws/hwsim.cpp:305-346 | a pause finds the hardware running and an unpause finds it paused |
| TimerGrid.UnpauseKeepsIff | avstream/avshws/hwsim.cpp:326-346 | the deadline set on unpausing lies on the grid; it lies within one period behind now if and only if the periods since the start and one more fit 32 bits, and then the count has not gone back |
| TimerGrid.DpcKeepsIff | avstream/avshws/hwsim.cpp:775-775 | an interrupt counts one period, however late, and sets the timer again if and only if the hardware is not being stopped; the count grows if and only if it is not the last of 32 bits |
| TimerGrid.NoDrift | avstream/avshws/hwsim.cpp:848-857 | over any run, of any length, every deadline is a whole number of periods from the start and the count never exceeds the elapsed periods |
| TimerGrid.NeverBack | avstream/avshws/hwsim.cpp:332-344 | the count never decreases until 2^32 - 1 periods have passed |
| TimerGrid.InterruptsCome | avstream/avshws/hwsim.cpp:848-866 | over every run a timer is set or an interrupt due exactly from a start or unpause to the interrupt that finds the hardware being stopped |
| TimerGrid.TimerComes | avstream/avshws/hwsim.cpp:848-857 | a timer goes off when its deadline has come and not before, and the interrupt follows |
| TimerGrid.CountIsInterrupts | avstream/avshws/hwsim.cpp:775-775 | between unpauses the count is the number of interrupts, in 32 bits |
| Pixels.PutPixel | avstream/avshws/image.h:252-273 | a pixel put is that pixel's bytes and no other's, in both formats |
| Pixels.PutAllPixel | avstream/avshws/image.h:406-431 | a run of pixels puts each color at its place |
| Pixels.CopyPixel | avstream/avshws/image.cpp:386-390 | a byte copy between pixels of the same parity copies the pixels |
| Pixels.PixelBytes | avstream/avshws/image.h:252-273 | the place and order of a pixel's bytes in both formats |
| Pixels.ColorsMix | avstream/avshws/image.cpp:305-315 | the RGB table is blue, green and red, and its colors mix as light does |
| Pixels.ColorsAgree | avstream/avshws/image.cpp:317-327 | the packed 4:2:2 table is the BT.601 conversion of the RGB table to within two |
| Overlay.OnRun | avstream/avshws/image.h:288-308 | a run inside a row touches only pixels of that row, in both orientations |
| Overlay.PixelPlace | avstream/avshws/image.h:288-308 | where the bytes of pixel (x, y) lie in either orientation |
| Overlay.BarsToPixel | avstream/avshws/image.cpp:363-392 | each copied row shows the first row's colors |
| Overlay.BarsShow | avstream/avshws/image.cpp:363-392 | the pixel in column x of every row is bar floor(8x / width) |
| Overlay.BarsAreEighthsIff | avstream/avshws/image.cpp:374-375 | the 32-bit index is that quotient for all columns if and only if there are at most 2^29 |
| Overlay.BarsDarken | avstream/avshws/image.cpp:302-303 | the bars darken from white to black |
| TextOverlay.RowLength | avstream/avshws/image.cpp:468-472 | a row of glyphs is LenX pixels |
| TextOverlay.RowShowsFont | avstream/avshws/image.cpp:543-570 | in a row of text a glyph pixel is foreground if and only if its font bit is set |
| TextOverlay.EightBits | avstream/avshws/image.cpp:463-476 | eight bits a byte from the highest down, and LenX for the code's font |
| TextOverlay.BitIsSet | avstream/avshws/image.cpp:545-556 | a pixel is foreground if and only if its bit is set |
| TextOverlay.ColumnIs | avstream/avshws/image.cpp:525-570 | the column of each pixel of each character |
| TextOverlay.OverlaidOutside | avstream/avshws/image.cpp:499-603 | pixels outside the clipped rectangle are kept |
| TextOverlay.OverlaidBorder | avstream/avshws/image.cpp:513-521 | the border lines show the background |
| TextOverlay.OverlaidGlyphs | avstream/avshws/image.cpp:525-593 | each line of a glyph row shows the row's colors over what lay under its first line |
| TextOverlay.TextIsLegible | avstream/avshws/image.cpp:451-605 | with opaque colors each glyph pixel inside the clip is foreground if and only if its font bit is set |
| TextDrawing.FitsIff | avstream/avshws/image.cpp:504-604 | nothing is written on a line outside the image if and only if the text fits: no column or at most one line is left, or all lines are there, less the lower border on a transparent background, and less empty glyph rows there at scale 1 |
| TextDrawing.DrawIsOverlaid | avstream/avshws/image.cpp:504-604 | where the text fits, what the code draws line by line with its count of space is the overlay |
| TextDrawing.OpaqueFitsIff | avstream/avshws/image.cpp:504-604 | on an opaque background with a column left: at most one line of space, or all lines |
| ImageSynthesizer.ImageSynthesizer.PutPixel | avstream/avshws/image.h:280-286 | the pixel is written at the cursor, which moves to the next one; a transparent one writes nothing, wherever the cursor is |
| ImageSynthesizer.ImageSynthesizer.GetImageLocation | avstream/avshws/image.h:433-447 | the cursor and parity of a coordinate |
| ImageSynthesizer.ImageSynthesizer.SynthesizeBars | avstream/avshws/image.cpp:342-393 | the buffer is the bars |
| ImageSynthesizer.ImageSynthesizer.PutBits | avstream/avshws/image.cpp:545-556 | the mask and scale loops with clipping write the byte's pixels |
| ImageSynthesizer.ImageSynthesizer.PutGlyphRow | avstream/avshws/image.cpp:530-570 | a row of the text, clipped on the right; below the image, an empty one without a trace |
| ImageSynthesizer.ImageSynthesizer.PutRow | avstream/avshws/image.cpp:525-590 | a glyph row and its copies |
| ImageSynthesizer.ImageSynthesizer.OverlayText | avstream/avshws/image.cpp:400-605 | the buffer is the overlay at the placed or centered position, whenever nothing would be written outside the image |
| FormatCheck.MultiplyCheckOverflow | avstream/avshws/capture.cpp:1010-1054 | TRUE if and only if the product fits 32 bits |
| FormatCheck.CheckImageSize | avstream/avshws/capture.cpp:1214-1250 | accepts if and only if no product wraps and the image fits biSizeImage |
| FormatCheck.SupportedFormats | avstream/avshws/device.cpp:383-410 | exactly 24-bit RGB and 16-bit YUY2 have a synthesizer, of as many bits a pixel, RGB flipped unless the height is negative |
| FormatCheck.AcceptedIffHeld | avstream/avshws/device.cpp:383-410 | for a format with a synthesizer it accepts exactly the images of at most biSizeImage bytes, that is those a buffer of that size holds |
| FormatCheck.AcceptedPixelsInside | avstream/avshws/capture.cpp:1214-1250 | then a pixel lies inside the buffer if and only if it is not the last one of a packed 4:2:2 image of odd width that fills the buffer |
| FormatCheck.BarsInsideIff | avstream/avshws/image.cpp:363-392 | the exact condition for all bytes the bars write, images without lines included |
| FormatCheck.ClockAndCounterFitIff | avstream/avshws/hwsim.cpp:803-827 | the two overlays fit if and only if the image has 27 lines and 10 columns, the wrapped place of the clock included |
| HfpDevices.FindSpec | audio/sysvad/common.cpp:3036-3056 | the search finds the listed device of that link, or there is none |
| HfpDevices.ArrivalLists | audio/sysvad/common.cpp:3101-3182 | an arrival of an unlisted interface lists its device with its start queued; every failure leaves list and tasks as before |
| HfpDevices.RemovalUnlists | audio/sysvad/common.cpp:3222-3282 | the removal of a listed interface unlists it and queues the stop of its device; another arrival, or a removal without memory, changes nothing |
| HfpDevices.ListedIffConnected | audio/sysvad/common.cpp:3101-3282 | over every run an interface is listed exactly if its last notification that queued a task was an arrival |
| HfpDevices.ArrivalKeeps | audio/sysvad/common.cpp:3101-3108 | an arrival that finds the link takes a reference and drops it |
| HfpDevices.QueueStartKeeps | audio/sysvad/common.cpp:3137-3182 | listing a device and queueing its start keeps the invariant, with and without a task |
| HfpDevices.QueueStopKeeps | audio/sysvad/common.cpp:3222-3282 | so does unlisting it and queueing its stop |
| HfpDevices.WorkerActsKeeps | audio/sysvad/common.cpp:2980-2994 | so do the worker's start and stop |
| HfpDevices.StepKeeps | audio/sysvad/common.cpp:2954-3007 | every step of notifier, worker and cleanup keeps the invariant |
| HfpDevices.LifetimesHold | audio/sysvad/common.cpp:3137-3182 | the reference count is the number of holders, a device is freed exactly when nothing points to it, listed links are distinct, queued tasks have a worker coming |
| HfpDevices.PointersAreLive | audio/sysvad/common.cpp:2996-3000 | no thread, list or task points to a freed device |
| HfpDevices.StopOnceAfterStart | audio/sysvad/common.cpp:2980-2994 | Stop runs at most once and only after Start |
| HfpDevices.ReleasesAsExpected | audio/sysvad/common.cpp:3254-3258 | the releases commented as not the last and as the last are so |
| HfpDevices.CleanupIsComplete | audio/sysvad/common.cpp:3466-3521 | after cleanup lists are empty, all devices freed, and every started one stopped |
| HfpDevices.CleanupFinishes | audio/sysvad/common.cpp:3466-3521 | from every reachable state the cleanup can be brought to its end in a bounded number of steps, with every device freed and each started one stopped |
| HfpDevices.WorkerFinishes | audio/sysvad/common.cpp:2954-3007 | one run of the worker goes through all tasks, after which every listed device has been started and of the others each started one stopped |
| HfpDevices.FailsIffStartFails | audio/sysvad/common.cpp:2980-2994 | a listed device fails exactly when its Start does |
| HfpDevices.FreedWhileRunningIff | audio/sysvad/common.cpp:4008-4009 | a device is destroyed while running if and only if no task could be allocated for it |
| HfpDevices.FreedWhileRunningExample | audio/sysvad/common.cpp:3137-3182 | a run from the start to such a device |
| HfpNotifications.StepKeeps | audio/sysvad/common.cpp:4725-4871 | every step keeps each request in one place and its error count in range |
| HfpNotifications.RequestsPartitioned | audio/sysvad/common.cpp:4725-4934 | in every interleaving each request is in exactly one place |
| HfpNotifications.NeverSentTwice | audio/sysvad/common.cpp:4833-4868 | a request is sent only while it is nowhere else |
| HfpNotifications.RetiredForGood | audio/sysvad/common.cpp:4899-4916 | a retired request stays retired |
| HfpNotifications.SixFailuresRetire | audio/sysvad/common.cpp:4909-4921 | the error count is the number of failures since the last success over every run, and the sixth failure retires the request |
| HfpNotifications.CollectedIff | audio/sysvad/common.cpp:4899-4932 | a completed request is collected unless cancelled, not collectable or failed once too often |
| HfpNotifications.CollectedAreResent | audio/sysvad/common.cpp:4844-4868 | one run of the work item sends every collected request again, in order, and goes idle |
| HfpNotifications.StartSendsInOrder | audio/sysvad/common.cpp:4725-4871 | over every run exactly the first requests have been sent, one for each send that succeeded, and none after one that failed |
| HfpNotifications.StopLeavesNothing | audio/sysvad/common.cpp:6338-6350 | after purge and flush nothing is in flight, the work item is idle, and nothing more can happen |
| HfpNotifications.StopFinishes | audio/sysvad/common.cpp:6338-6350 | from every reachable state Stop can come to its end, all that was in flight being retired |
| HfpNotifications.StrandedIff | audio/sysvad/common.cpp:4844-4868 | collected requests are left without a work item exactly when a resend fails while others are collected and none is enqueued |
| HfpNotifications.StrandedUntilCollected | audio/sysvad/common.cpp:4923-4932 | only the next collected completion brings the work item back |
| HfpNotifications.StrandedExample | audio/sysvad/common.cpp:4844-4868 | such a run with two requests |
| ScoStream.StepKeeps | audio/sysvad/common.cpp:4378-4435 | every step of the calls and the completion keeps the invariant |
| ScoStream.EventFollowsRequest | audio/sysvad/common.cpp:5759-5791 | between calls the event is unsignalled exactly while the request is out; the stream count is opens minus closes; without streams the request is idle and the status a failure |
| ScoStream.StreamsAreHeld | audio/sysvad/common.cpp:4378-4435 | over any run the stream count is the opens that succeeded minus the closes |
| ScoStream.UnsignalledIff | audio/sysvad/common.cpp:5759-5783 | the one other unsignalled moment is between clearing the event and sending |
| ScoStream.CloseIsReleased | audio/sysvad/common.cpp:5815-5836 | StreamClose always finds a completion to wait for |
| ScoStream.FailureStays | audio/sysvad/common.cpp:5722-5738 | no late completion overwrites the failure status |
| ScoStream.FirstOpen | audio/sysvad/common.cpp:4378-4410 | a whole StreamOpen of the first stream: success with the request out, or, whichever request fails, nothing but the failure status |
| ScoStream.OtherStreamsCount | audio/sysvad/common.cpp:4378-4435 | other opens and closes only count |
| ScoStream.LastClose | audio/sysvad/common.cpp:4413-4435 | a whole StreamClose of the last stream, wherever the status request is: idle, signalled, a failure status |
| ScoStream.StatusIsWritten | audio/sysvad/common.cpp:5722-5738 | over every run the status is what a call or a completion wrote last |
| ScoStream.OpensAndClosesBalance | audio/sysvad/common.cpp:4378-4435 | over every run the device is asked to close exactly the stream it was asked to open |
| SubdeviceCache.AdapterCommon.GetCachedSubdevice | audio/sysvad/common.cpp:2413-2435 | the cached port and miniport with one reference each exactly when the name is cached |
| SubdeviceCache.AdapterCommon.CacheSubdevice | audio/sysvad/common.cpp:2453-2496 | a record at the tail with its references, or nothing |
| SubdeviceCache.RecordHolds | audio/sysvad/common.cpp:2453-2496 | a record holds one reference on its port and one on its miniport, and one more for power management |
| SubdeviceCache.AdapterCommon.RemoveCachedSubdevice | audio/sysvad/common.cpp:2502-2533 | the record of that name goes with its references |
| SubdeviceCache.AdapterCommon.FindOrInstall | audio/sysvad/common.cpp:2620-2648 | a cached or a newly installed subdevice, with the references the call now holds |
| SubdeviceCache.AdapterCommon.FindBoth | audio/sysvad/common.cpp:2610-2695 | both subdevices are found or installed, and every count grows by what cache and call hold |
| SubdeviceCache.AdapterCommon.Settle | audio/sysvad/common.cpp:2620-2738 | found or installed and connected, or the cache as it was |
| SubdeviceCache.AdapterCommon.InstallEndpointFilters | audio/sysvad/common.cpp:2577-2738 | counts change by the cache's and the returned references exactly; each of the four out parameters asked for is what the cache records under the name; names stay distinct; failure leaves the cache as it was; when success comes without a topology |
| SubdeviceCache.AdapterCommon.CleanUp | audio/sysvad/common.cpp:2717-2730 | the error path takes out exactly what the call put in |
| SubdeviceCache.AdapterCommon.RemoveEndpointFilters | audio/sysvad/common.cpp:2746-2790 | both names are gone and the counts balanced |
| SubdeviceCache.AppendDistinctIff | audio/sysvad/common.cpp:2620-2648 | names stay distinct if and only if the new one is not cached |
| DelayedCompletion.TakeKeeps | TrEE/Miniport/TestService.c:623-671 | each step of timer, work item and cancel keeps one live token or one completion |
| DelayedCompletion.CompletedOnce | TrEE/Miniport/TestService.c:1056-1075 | in every interleaving of any number of requests each is completed exactly once, its timer deleted once |
| DelayedCompletion.CancelledIff | TrEE/Miniport/TestService.c:1056-1075 | it is cancelled if and only if the cancel found the timer in the queue |
| DelayedCompletion.Progresses | TrEE/Miniport/TestService.c:764-773 | an unfinished request always has a step towards its end |
| DelayedCompletion.CancelEnds | TrEE/Miniport/TestService.c:1056-1075 | a cancel that finds the timer ends the request by its own steps; a later one changes nothing |
| DelayedCompletion.CancelsAreNoted | TrEE/Miniport/TestService.c:1056-1075 | over every run with any number of requests a cancel is noted for exactly the requests it was called for |
| DelayedCompletion.IoTakeKeeps | TrEE/Miniport/TestService.c:1170-1181 | the steps of the IOCTL variant keep its invariant |
| DelayedCompletion.IoCompletedAtMostOnce | TrEE/Miniport/TestService.c:1126-1136 | at most one completion and one deletion; none if and only if the cancel was refused after it had the request |
| DelayedCompletion.IoEnds | TrEE/Miniport/TestService.c:1126-1181 | every IOCTL can come to its end; it succeeds if and only if the work item took it back, is cancelled if and only if the cancel stopped the timer, and without a cancel always succeeds |
| DelayedCompletion.IoCancelEnds | TrEE/Miniport/TestService.c:1126-1136 | a cancel that finds the timer ends the request |
| DelayedCompletion.IoCancelIsNoted | TrEE/Miniport/TestService.c:1126-1136 | the cancel routine has run exactly if it was called |
| DelayedCompletion.NeverCompletedExample | TrEE/Miniport/TestService.c:1170-1181 | a run in which the IOCTL is never completed |
| EchoService.FittingIsQuotient | TrEE/OSService/SampleOSService.c:786-792 | the repeat loop makes floor(out / in) passes |
| EchoService.RepeatEndsIff | TrEE/OSService/SampleOSService.c:786-792 | the repeat loop ends if and only if the input is not empty |
| EchoService.RepeatInto | TrEE/OSService/SampleOSService.c:784-795 | whole copies, the reported count, the tail untouched |
| EchoService.ReverseInto | TrEE/OSService/SampleOSService.c:797-809 | the reversed input at the front of the output |
| EchoService.EchoHandler | TrEE/OSService/SampleOSService.c:771-817 | status, bytes and count of every function and error |
| EchoService.TwiceReversed | TrEE/Miniport/TestService.c:948-1004 | writes the reverse of the doubled input, reports 2n, and each error case |
| EchoService.TwoReversed | TrEE/Miniport/TestService.c:964-1004 | two copies of the reverse are the reverse of two copies |
| EchoService.CopiesAt | TrEE/OSService/SampleOSService.c:786-792 | byte i of repeated input is byte i mod n |

## Left out

* WDF, KS, PortCls and COM internals. Timers, DPCs, work items, events, spin locks, request send and
  completion and reference counts are steps of small state machines. Assumed: interface notifications
  come one at a time and none after unregistering, a work item runs on one worker at a time, a request
  is not cancelled after its completion, time does not go back.
* That AVStream accounts DataUsed of a frame when the leading edge advances past it is an assumption,
  taken from the comment at avstream/avshws/capture.cpp:1345-1347.
* The pool of work items shared by several `CSaveData` streams, workers that run out of order, and
  reallocation by `SetMaxWriteSize`: one stream with in-order workers is modelled.
* Files are byte sequences; a read or write is complete or fails, header writes succeed, and so do the
  writes of the frames that are left at the stop.
* 64-bit wrap-around of times and positions, and memory holding 2^32 list entries.
* Floating point: a tone's frame is an arbitrary function of its number.
* The values of the font table, and characters outside ASCII, which the code would index with a signed
  char.
* The x86 variant of `ProgramScatterGatherMappings`, which never sets the clone that the fill reads.
- CaptureHardware.HardwareSimulation.FillScatterGatherBuffers: stated for images of exactly their rows and buffers that take them, because the code copies all rows without asking; `CapturePipeline.FillsOnceIff` says what the loop does otherwise.
- ImageSynthesizer.ImageSynthesizer.OverlayText: stated for texts that fit, because the code writes outside the image otherwise; `TextDrawing.FitsIff` is the exact condition.
- CaptureHardware.HardwareSimulation.constructor: Start without the failure of its allocation; its timer is in `StopHandshake` and `TimerGrid`.
- ToneGenerator.ToneGenerator.constructor: Init without the checks of the format and the failing statuses.
- EchoService.EchoHandler: repeating is stated for input that is not empty, because the loop does not end otherwise, and reversing for lengths below 2^32, the range of its index.
- WaveObject.WaveObject.ParseAndRead: stated for files on which the scan ends; `WaveFile.EndlessIff` is the exact condition.
* The clock and presentation times that `CompleteMappings` writes, frame info headers, and the reset of
  frame numbers in `SetState`.
* The order in which `InstallEndpointFilters` drops its local references.
* SendIoCtrlSynchronously, the miniports' property handlers, volume and connection callbacks.
* `GetFilters` and `SetIdlePowerManagement`, whose references do not balance.
* avssamp's video filter and image files, which repeat the handshake and pixel code of avshws.
* The remaining samples of the repository.
