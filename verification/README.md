# oZone core: a verified model

oZone moves video frames through a graph of providers and consumers. This project models the self-contained
algorithms and state machines inside that pipeline and proves what each of them is for:

- `Rational` — the continued-fraction search for a frame rate as a fraction. The answer is reduced, in range and a
  best approximation of the second kind; it is the nearest fraction in range exactly when it is exact or the
  candidate that is compiled out is no nearer.
- `StartCode`, `NalWalk`, `H264Stream` — the word-at-a-time start code search against a naive scan, the walk over the
  NAL units of a byte stream (Annex B of ITU-T H.264) with the exact condition for its round trip, and the capture of
  SEI, SPS and PPS by the encoder and the relay.
- `LinkedPtr` — the smart pointer whose handles form rings in the heap, proved to do what a reference count would do.
- `Variance` — the motion detector's fixed-point variance cells: range, distance from the exact average, fast start.
- `AlarmTrack`, `AlarmLog`, `Recorders`, `Mp4FileOutput` — the alarm machines. `AlarmTrack` describes the events of a
  frame stream without the machine, shows that the description has exactly one solution, and that the machine
  computes it; `AlarmLog` shows that the effects are one tidy block per event; `Recorders` holds the three consumers.
- `FeedGraph` — the two-sided registration handshake and frame distribution, as objects and as a graph value.
- `ByteBuffer` — the head/tail window over a reallocating array, against a plain sequence.
- `HttpRequest` — the tokenizer, and a request put together from pieces, with the exact condition for it to work.
- `Base64` — encoding and decoding.
- `MatrixTiles` — where the matrix video writes its tiles, and exactly when they fill the picture.
- `Arithmetic`, `Sequences`, `Bytes`, `Alarms` — facts and types the other modules share.

Code that changes state is a class or a method with loops, proved against a specification function; what the code
promises is then proved about that function over every input or every run.

`dafny verify dfyconfig.toml` checks everything.

## What the proofs brought to light

- The comment in `double2Rational` speaks of trying a second candidate; that part is compiled out
  (`server/src/base/ozFfmpeg.cpp:72-89`), so the answer need not be the nearest fraction (`Rational.NotAlwaysNearest`).
- The recorders' headers call `minTime` the minimum time to record after an alarm
  (`server/src/consumers/ozVideoRecorder.h:77`). The code compares it with the span from the first to the last alarm, so
  an event too short in that sense is not closed by any amount of quiet (`AlarmTrack.EndsExactlyWhen`,
  `AlarmTrack.SingleAlarmNeverEnds`).
- `getShift` takes its limit as an `int`, while the frame count has 64 bits: at 2^32 frames the fast start begins again
  and the shift drops to 1 (`Variance.ShiftDropsAtWrap`). Below that the shift never falls, for every blend, whether a
  power of two or not. The range of the cells and their distance from the exact average, at most 32767, do not depend
  on it; only the tighter bound by the last shift can fail there (`Variance.LastShiftBoundFails`).
- The round trip through the NAL walk does not need the last unit to end in a non-zero byte, and needs less still
  before four-byte codes; `NalWalk.RoundTrip` states the condition as an equivalence.
- `registerConsumer` gives its link to the provider's side only; the consumer's side keeps the default queued link.
- Matrix tiles: when the grid does not divide the picture, or rounding up the chroma planes of the tiles adds up to
  more than the chroma plane of the picture, the tiles do not fill it. Rounding up makes them overlap only where there
  are several rows of tiles; the scaler also writes past the plane, as it does with a single row
  (`MatrixTiles.WidthSticksOut`, `MatrixTiles.TilesOverlap`). Each of the three ways to fail has its exact condition:
  `MatrixTiles.ApartExactlyWhen`, `MatrixTiles.InsideExactlyWhen`, `MatrixTiles.CoversExactlyWhen`.
- Every plane but the first is taken for a chroma plane. The alpha plane of a format such as YUVA420P is not one: its
  rows of tiles are placed too close together and overlap (`MatrixTiles.AlphaTilesOverlap`), except exactly where
  `MatrixTiles.AlphaApartExactlyWhen` says.
- Deregistering with `reciprocate` set to false is public, and breaks the agreement of the two sides exactly when there
  is a link to forget (`FeedGraph.ApplyAgrees`).
- `double2Rational` returns its long numerator in an int. At 1073741824.5 and maxden 2 it returns -2147483647/2
  (`Rational.NotAlwaysNarrowed`); `Rational.NarrowedExactlyWhen` says exactly when the ints still are the answer.
- A trigger write that finds the shared segment invalid is dropped and not made up for: until the next write that
  succeeds the trigger shows the wrong state after every odd number of dropped ones (`Recorders.AgreesStep`).

## Model

| member | source | states |
|---|---|---|
| Rational.Double2Rational | server/src/base/ozFfmpeg.cpp:24-91 | on every exit the answer is reduced, 1 <= den <= maxden, its error is at most 1/(den*(maxden+1)), and no fraction in range has a smaller error times denominator; unless it is exact, the input lies between it and a neighbouring fraction in range with no room in between; the two ints that are returned are such an answer if and only if its numerator is below 2^31; the search ends |
| Rational.BestBelowNext | server/src/base/ozFfmpeg.cpp:38-59 | a convergent is a best approximation of the second kind among all denominators below the next one |
| Rational.MissBound | server/src/base/ozFfmpeg.cpp:38-59 | once the next denominator exceeds maxden the error is at most 1/(den*(maxden+1)) |
| Rational.StopsWithAnswer | server/src/base/ozFfmpeg.cpp:38-70 | stopping on a denominator that is too big leaves an answer: reduced, close, and unbeaten in range |
| Rational.ExactIsAnswer | server/src/base/ozFfmpeg.cpp:47-51 | stopping on an exact term leaves an answer too |
| Rational.SearchStops | server/src/base/ozFfmpeg.cpp:38-59 | both exits by size, the next denominator and the representation limit, settle the search |
| Rational.AppendTerm | server/src/base/ozFfmpeg.cpp:40-52 | one turn keeps the determinant at 1 or -1 and the Moebius identity between the remainder and the input |
| Rational.CoprimeFromDeterminant | server/src/base/ozFfmpeg.cpp:30-46 | the determinant makes every convergent a reduced fraction |
| Rational.NarrowedExactlyWhen | server/src/base/ozFfmpeg.cpp:70-90 | the int that is returned still answers if and only if the numerator is below 2^31 |
| Rational.ToInt32Is | server/src/base/ozFfmpeg.cpp:70 | the int is the long modulo 2^32, within the range of an int |
| Rational.AnswerFits | server/src/base/ozFfmpeg.cpp:70-90 | for a caller: that holds whenever input*maxden+1 is below 2^31, and never when the input is 2^31+1 or more |
| Rational.NotAlwaysNarrowed | server/src/base/ozFfmpeg.cpp:70-90 | for 1073741824.5 and maxden 2 the only answer is 2147483649/2, and the int that comes out is -2147483647 |
| Rational.LongsFit | server/src/base/ozFfmpeg.cpp:30-59 | while input*maxden+1 is below 2^63, no term, no product in the loop's test and no numerator that is computed overflows a 64-bit long, on whichever exit |
| Rational.SecondCandidate | server/src/base/ozFfmpeg.cpp:72-89 | the candidate that is compiled out is the answer's neighbour on the other side of the input |
| Rational.NearestExactlyWhen | server/src/base/ozFfmpeg.cpp:64-90 | the answer is the nearest of all fractions in range if and only if it is exact or the second candidate is no nearer |
| Rational.NotAlwaysNearest | server/src/base/ozFfmpeg.cpp:64-90 | for 5/16 and maxden 10 the answer is 1/3 although 3/10 is nearer |
| StartCode.ZeroByteTestExact | server/src/base/ozFfmpeg.cpp:112-113 | the bit trick fires if and only if one of the four bytes is zero, in either byte order |
| StartCode.FindStartCode | server/src/base/ozFfmpeg.cpp:102-137 | for every buffer, start, alignment and byte order the result is the naive scan's, and every read lies in the buffer |
| StartCode.FirstCode | server/src/base/ozFfmpeg.cpp:102-137 | the naive scan: the least position of 00 00 01 that is followed by a byte, else the end |
| StartCode.H264StartCode | server/src/base/ozFfmpeg.cpp:147-153 | the same, moved back over the leading zero of a four-byte code |
| NalWalk.WalkTiles | server/src/encoders/ozH264Relay.cpp:196-237 | on any bytes, from any start code on, the buffer is exactly the concatenation of the (code, unit) pairs of the walk |
| NalWalk.UnitsTile | server/src/encoders/ozH264Relay.cpp:196-237 | hence the whole walk loses and invents nothing after the first start code |
| NalWalk.RoundTrip | server/src/encoders/ozH264Encoder.cpp:269-307 | a list of units written with three- or four-byte codes is read back unchanged if and only if the list satisfies the stated condition on its units |
| NalWalk.ConformingReadsBack | server/src/encoders/ozH264Encoder.cpp:269-307 | every list of units conforming to section 7.4.1 of ITU-T H.264 is read back, whatever the length of each code |
| H264Stream.SkipCode | server/src/encoders/ozH264Relay.cpp:200-201 | the loop without a bound stops inside the buffer, on the byte after the code |
| H264Stream.NalCapture.Scan | server/src/encoders/ozH264Encoder.cpp:268-307 | the loop captures exactly what going through the buffer's units captures, and panics exactly when that does |
| H264Stream.NalTypeIs | server/src/encoders/ozH264Encoder.cpp:279 | a unit's type is its first byte modulo 32 |
| H264Stream.CapturesLast | server/src/encoders/ozH264Encoder.cpp:283-305 | each of SEI, SPS and PPS holds the last unit of its type, or what it held before |
| H264Stream.CapturePanics | server/src/encoders/ozH264Encoder.cpp:294-295 | the capture panics if and only if some SPS is shorter than four bytes |
| H264Stream.ProfileFromSps | server/src/encoders/ozH264Encoder.cpp:294-298 | level and profile are bytes 3 and 1 of the SPS that is kept, and unchanged when there is none |
| H264Stream.ConformingCapture | server/src/encoders/ozH264Encoder.cpp:269-307 | end to end: writing conforming units and scanning the stream keeps the last of each type, with its level and profile |
| H264Stream.H264Relay.ProcessFrame | server/src/encoders/ozH264Relay.cpp:186-248 | one frame takes the relay from state to state as the relay machine does |
| H264Stream.RelayForwardsFromSps | server/src/encoders/ozH264Relay.cpp:170-250 | over a run nothing is forwarded before the first frame with an SPS, and from it on every frame, in order, timed from it |
| H264Stream.RelayKeepsSpsFrame | server/src/encoders/ozH264Relay.cpp:193-242 | after a run whose first frame with an SPS is frame k the relay keeps that frame as the initial one, its time as the start, and what the units of frames 0 to k leave of the parameters; later frames change nothing |
| H264Stream.RelayWaits | server/src/encoders/ozH264Relay.cpp:193-239 | while no frame has an SPS it keeps the other parameters and no initial frame |
| H264Stream.ForwardedTimes | server/src/encoders/ozH264Relay.cpp:241-247 | a forwarded frame has its own number and bytes, and the time since the starting frame, wrapped to 64 bits exactly if it is older |
| LinkedPtr.Handle.Adopt | server/src/base/linkedPtr.h:30-31 | the new handle is a ring of its own; all handles stay in disjoint, well-linked rings |
| LinkedPtr.Handle.Copy | server/src/base/linkedPtr.h:34-35 | the new handle joins its source's ring, right after it |
| LinkedPtr.Handle.Acquire | server/src/base/linkedPtr.h:69-81 | what the five writes leave in the handle and its two neighbours |
| LinkedPtr.Handle.Release | server/src/base/linkedPtr.h:99-109 | the neighbours are joined, or the object is deleted, exactly if the handle was its own neighbour |
| LinkedPtr.Handle.Destroy | server/src/base/linkedPtr.h:32-33 | the handle leaves its ring and the rest stay well linked; only the last handle deletes |
| LinkedPtr.Handle.Assign | server/src/base/linkedPtr.h:36-43 | the handle moves to the other's ring; assigning a handle to itself does nothing |
| LinkedPtr.AcquirePlaces | server/src/base/linkedPtr.h:69-81 | after the writes of acquire every live handle's three pointers fit the longer ring |
| LinkedPtr.ReleasePlaces | server/src/base/linkedPtr.h:99-109 | after the writes of release every remaining handle's three pointers fit the shorter ring |
| LinkedPtr.RemoveKeeps | server/src/base/linkedPtr.h:99-109 | leaving a ring deletes exactly what a reference count would delete, and keeps all rings |
| LinkedPtr.UniqueMeansAlone | server/src/base/linkedPtr.h:62 | unique() holds if and only if the ring has one handle, that is, no other live handle holds the object |
| LinkedPtr.AloneIffUnshared | server/src/base/linkedPtr.h:62-102 | a ring has one handle exactly when a reference count would stand at one |
| LinkedPtr.ApplyRefines | server/src/base/linkedPtr.h:30-56 | every construction, copy, assignment and destruction does to bindings and deletions what reference counting does |
| LinkedPtr.ValidIsSafe | server/src/base/linkedPtr.h:99-109 | nothing is deleted twice, and the deleted objects are exactly the adopted ones that no live handle holds |
| LinkedPtr.RunRefines | server/src/base/linkedPtr.h:30-109 | both hold in every run of operations |
| Variance.GetShift | server/src/libgen/libgenUtils.cpp:45-62 | the loops compute the specified shift, with the limit converted as C++ converts it |
| Variance.ShiftIsLeast | server/src/libgen/libgenUtils.cpp:53-61 | the shift is the least in 1..15 whose power of two reaches the reduced divisor, or 15 |
| Variance.HalvedIsFirst | server/src/libgen/libgenUtils.cpp:47-51 | the limit reduces the divisor to the first quotient by a power of two that does not exceed it |
| Variance.ShiftAtPower | server/src/libgen/libgenUtils.cpp:45-62 | for a power-of-two blend the shift is the least of the blend's exponent and that of the largest power of two not above the frame count plus one, from 1 to 15, below 2^31 frames |
| Variance.ShiftWithoutLimit | server/src/processors/ozMotionDetector.cpp:474 | from there to 2^32 frames nothing is limited |
| Variance.ShiftRepeats | server/src/processors/ozMotionDetector.cpp:474 | and it all repeats every 2^32 frames |
| Variance.ShiftsGrow | server/src/libgen/libgenUtils.cpp:45-62 | for every blend the shift lies in 1..15 and never falls as the frame count grows to 2^32-1 |
| Variance.ShiftDropsAtWrap | server/src/processors/ozMotionDetector.cpp:474 | that bound is sharp: at 2^32 frames the shift drops to 1 |
| Variance.CellStays | server/src/processors/ozMotionDetector.cpp:498-502 | one update keeps a cell in [64*2^16, 65025*2^16] and no intermediate value overflows |
| Variance.CellInRange | server/src/processors/ozMotionDetector.cpp:492-506 | so does every run of updates |
| Variance.StepTracks | server/src/processors/ozMotionDetector.cpp:498-502 | one update keeps the cell at most top above the exact moving average, for any top of at least 2^s-1 |
| Variance.CellTracksAverage | server/src/processors/ozMotionDetector.cpp:474-506 | over any run of updates, with shifts in any order up to top, 0 <= cell - exact average <= 2^top-1: truncation does not add up |
| Variance.AverageApproaches | server/src/processors/ozMotionDetector.cpp:498-502 | the exact average it is compared with comes nearer to each sample's square by exactly the 2^s-th part, down to the noise floor |
| Variance.LastShiftBounds | server/src/processors/ozMotionDetector.cpp:474-506 | with shifts that never fall the last shift gives the bound |
| Variance.RootFitsByte | server/src/processors/ozMotionDetector.cpp:518-523 | the root shown for a cell always lies in 8..255 |
| Variance.ColumnTracks | server/src/processors/ozMotionDetector.cpp:470-506 | the range, and a distance of at most 32767 from the exact average, for every pixel of every run, whatever the frame counts |
| Variance.ColumnTracksLastShift | server/src/processors/ozMotionDetector.cpp:470-506 | with frame counts that increase and stay below 2^32 the shifts never fall, and the last one gives the bound |
| Variance.LastShiftBoundFails | server/src/processors/ozMotionDetector.cpp:474 | at 2^32 frames that tighter bound can fail: four updates with blend 512 leave a distance of 1.07 after shift 1 |
| Variance.MotionDetector.UpdatedCell | server/src/processors/ozMotionDetector.cpp:494-505 | the update in 32-bit arithmetic, without overflow |
| Variance.MotionDetector.Populate | server/src/processors/ozMotionDetector.cpp:379-380 | the first fill puts every cell at the noise floor |
| Variance.MotionDetector.UpdateBuffer | server/src/processors/ozMotionDetector.cpp:470-506 | one update moves every cell by one step of its pixel's run |
| Variance.MotionDetector.DetectMotion | server/src/processors/ozMotionDetector.cpp:343-533 | after each call every cell of the buffer is what the recorded updates make of its pixel; a preclusive alarm leaves it untouched |
| Variance.MotionDetector.ProcessFrame | server/src/processors/ozMotionDetector.cpp:186-241 | the same over the frame loop: updates start after the ready count, frame counts increase |
| AlarmTrack.EventsAreEvents | server/src/consumers/ozVideoRecorder.cpp:62-127 | the events computed from the stream begin at an alarm, take in the store, end just before the first frame that closes them, and leave no alarm out |
| AlarmTrack.EventsUnique | server/src/consumers/ozVideoRecorder.cpp:62-127 | a stream has exactly one such list of events |
| AlarmTrack.StoreIsSuffix | server/src/consumers/ozVideoRecorder.cpp:129-141 | in every run the store is a suffix of the processed stream |
| AlarmTrack.PruneDropsOverAge | server/src/consumers/ozVideoRecorder.cpp:129-140 | pruning drops exactly the frames before the first one that is not over age at the moment it is looked at |
| AlarmTrack.MachineFollows | server/src/consumers/ozVideoRecorder.cpp:62-127 | in every run the event count, state and alarm times are those of the stream's events |
| AlarmTrack.EndsExactlyWhen | server/src/consumers/ozVideoRecorder.cpp:102-122 | once alarms stop, an event ends if and only if its alarm span already reached the minimum and some later frame is quiet |
| AlarmTrack.SingleAlarmNeverEnds | server/src/consumers/ozEventRecorder.cpp:94-108 | with a positive minimum time an event of a single alarm frame is never closed by quiet |
| AlarmTrack.LastAlarmIs | server/src/consumers/ozVideoRecorder.cpp:66-71 | the last alarm time of an event is the clock at its last alarmed frame |
| AlarmTrack.ReportedLength | server/src/consumers/ozVideoRecorder.cpp:108-115 | each reported length is the span from the event's first to its last alarm in seconds, and at least the minimum time |
| AlarmLog.LogIsBlocks | server/src/consumers/ozVideoRecorder.cpp:74-127 | in every run the effects are one block per event: BEGIN k, the open, one contiguous slice of the stream from the oldest stored frame to just before the closing one, the close, COMPLETE k, with k = 1, 2, 3, ... |
| AlarmLog.EventIsSaved | server/src/consumers/ozVideoRecorder.cpp:85-127 | in every run the frames saved for event k are exactly its slice of the stream, in order and once each |
| AlarmLog.BlockBegins | server/src/consumers/ozVideoRecorder.cpp:74-84 | an event's effects start with BEGIN k for the frame that began it, for film followed by the encoder's start and the opening of file k |
| AlarmLog.BlockSaves | server/src/consumers/ozEventRecorder.cpp:74-123 | then come its frames one by one, stills marked exactly when alarmed and not from the store |
| AlarmLog.BlockCompletes | server/src/consumers/ozVideoRecorder.cpp:108-115 | and last COMPLETE k for the frame that closed it with its length, for film after the closing of the file and the encoder's end |
| AlarmLog.EmitAddsToBlocks | server/src/consumers/ozVideoRecorder.cpp:66-127 | one frame adds to the effects exactly what it adds to the blocks |
| AlarmLog.DeviceFollowsState | server/src/consumers/ozVideoRecorder.cpp:74-127 | in every run no effect comes out of turn, and encoder and file are open if and only if the state is not IDLE |
| Recorders.VideoRecorder.ProcessFrame | server/src/consumers/ozVideoRecorder.cpp:53-143 | fields and effects stay those of the machine run on the stream seen so far; other frames change nothing |
| Recorders.Age | server/src/base/ozFeedFrame.h:146-151 | the age in seconds relative to the given time, or to the present when that is 0 |
| Recorders.QuietByAge | server/src/consumers/ozVideoRecorder.cpp:105 | a frame is quiet when its age relative to the last alarm is below minus the tail in seconds |
| Recorders.VideoRecorder.ClearOldFrames | server/src/consumers/ozVideoRecorder.cpp:131-140 | the over-age frames at the front of the store go, each judged by a new clock reading |
| AlarmLog.SavesAre | server/src/consumers/ozVideoRecorder.cpp:85-94 | saving frames is one save for each, in order, as the event recorder marks them |
| Recorders.VideoRecorder.EncodeStore | server/src/consumers/ozVideoRecorder.cpp:85-94 | the whole store is encoded, oldest first |
| Recorders.EventRecorder.ProcessFrame | server/src/consumers/ozEventRecorder.cpp:49-140 | the same machine with image files as effects, marked as alarmed exactly when written in state ALARM |
| Recorders.EventRecorder.WriteStore | server/src/consumers/ozEventRecorder.cpp:74-86 | the whole store is written, oldest first, unmarked |
| Recorders.MemoryTriggerV1.ProcessFrame | server/src/consumers/ozMemoryTriggerV1.cpp:78-122 | the same machine; the shared trigger, whose segment may be valid or not at each write, is on outside IDLE and off in it if and only if an even number of the latest switches was missed |
| Recorders.NoneMissed | server/src/consumers/ozMemoryTriggerV1.cpp:86-120 | while the segment is valid at every switch none is missed, so the trigger is on if and only if the state is not IDLE |
| Recorders.AgreesStep | server/src/consumers/ozMemoryTriggerV1.cpp:86-120 | a missed switch turns agreement with the state around, a written one restores it |
| Recorders.MemoryTriggerV1.SetTrigger | server/src/base/ozMemoryIOV1.cpp:394-405 | only the trigger of a segment that is valid at that moment is set |
| Recorders.MemoryTriggerV1.ClearTrigger | server/src/base/ozMemoryIOV1.cpp:407-418 | only the trigger of a segment that is valid at that moment is cleared |
| Mp4FileOutput.FilesAreFiles | server/src/consumers/ozMp4FileOutput.cpp:211-225 | the files computed from the stream start at a key frame that finds an alarm, end at the first that finds none, and leave no such key frame out |
| Mp4FileOutput.FilesUnique | server/src/consumers/ozMp4FileOutput.cpp:211-225 | a stream has exactly one such list of files |
| Mp4FileOutput.LogIsBlocks | server/src/consumers/ozMp4FileOutput.cpp:188-256 | in every run each file is opened, gets a contiguous run of the data frames from a key frame on, counted from 0, and is closed; nothing opens or closes in between |
| Mp4FileOutput.BlockIs | server/src/consumers/ozMp4FileOutput.cpp:211-254 | a file's effects are its opening, its packets, and when it is not open any more its closing |
| Mp4FileOutput.PacketsAre | server/src/consumers/ozMp4FileOutput.cpp:234-255 | its packets are the data frames of its range, in order and once each, with their key marks and their places counted from 0 |
| Mp4FileOutput.OpenIffLatestKeyArmed | server/src/consumers/ozMp4FileOutput.cpp:211-225 | at any time the file is open if and only if the latest key frame found the alarm state not IDLE |
| Mp4FileOutput.AlarmMeans | server/src/consumers/ozMp4FileOutput.cpp:154-186 | the alarm state is not IDLE if and only if there has been an alarm and no quiet motion frame has come after the first motion frame since the last one |
| Mp4FileOutput.AlarmAfter | server/src/consumers/ozMp4FileOutput.cpp:154-186 | ALARM until the next motion frame, then ALERT until a quiet one, then IDLE, with the time of the last alarm |
| Mp4FileOutput.HasKeyFrame | server/src/consumers/ozMp4FileOutput.cpp:190-207 | the walk finds a key frame exactly if one of the buffer's units is an IDR slice |
| Mp4FileOutput.ImagePerEvent | server/src/consumers/ozMp4FileOutput.cpp:158-170 | in every run one image is written per event, numbered from 1 |
| Mp4FileOutput.ImagesAreOfBeginners | server/src/consumers/ozMp4FileOutput.cpp:158-170 | and the images are those of the alarmed frames that found the state IDLE |
| Mp4FileOutput.HandleMotion | server/src/consumers/ozMp4FileOutput.cpp:154-186 | the alarm branch steps the alarm machine, and writes an image exactly when an event begins |
| Mp4FileOutput.FileStamps | server/src/consumers/ozMp4FileOutput.cpp:242-255 | in every file the packets carry the timestamps of their places in it, counted from 0 |
| Mp4FileOutput.PtsMeans | server/src/consumers/ozMp4FileOutput.cpp:247 | until the 64-bit product wraps the timestamp of frame n is n frames in whole units of the time base, rounded down |
| Mp4FileOutput.PtsOfSameRate | server/src/consumers/ozMp4FileOutput.cpp:247 | with the frame rate as time base the frames are stamped 0, 1, 2, ... |
| Mp4FileOutput.StampsGrow | server/src/consumers/ozMp4FileOutput.cpp:247 | until the product wraps timestamps start at 0 and never go back, and no two are the same if and only if a frame is at least one unit of the time base |
| Mp4FileOutput.HandleData | server/src/consumers/ozMp4FileOutput.cpp:211-255 | the data branch steps the file machine, emits its effects and stamps its packet |
| Mp4FileOutput.HandleFrame | server/src/consumers/ozMp4FileOutput.cpp:143-257 | one turn of the loop steps the whole machine, with its effects, timestamps and images |
| Mp4FileOutput.RunOver | server/src/consumers/ozMp4FileOutput.cpp:131-267 | the whole run produces the machine's log, the timestamps of its packets and the images, plus the final close exactly if a file is open |
| FeedGraph.FeedConsumer.RegisterProvider | server/src/base/ozFeedConsumer.cpp:38-52 | both maps after the handshake from the consumer's side, which ends because each call adds a missing half-edge |
| FeedGraph.FeedConsumer.DeregisterProvider | server/src/base/ozFeedConsumer.cpp:62-71 | both maps after deregistering from the consumer's side, with or without telling the provider |
| FeedGraph.FeedConsumer.QueueFrame | server/src/base/ozFeedConsumer.cpp:219-234 | the frame is appended unless the queue holds 10000 |
| FeedGraph.FeedConsumer.Cleanup | server/src/base/ozFeedConsumer.cpp:8-19 | every provider forgets the consumer, which forgets them and its queue |
| FeedGraph.FeedProvider.RegisterConsumer | server/src/base/ozFeedProvider.cpp:146-157 | both maps after the handshake from the provider's side, with the default link on the other side |
| FeedGraph.FeedProvider.DeregisterConsumer | server/src/base/ozFeedProvider.cpp:167-176 | both maps after deregistering from the provider's side |
| FeedGraph.FeedProvider.Cleanup | server/src/base/ozFeedProvider.cpp:126-136 | every consumer forgets the provider, which ends and forgets them |
| FeedGraph.FeedProvider.Offer | server/src/base/ozFeedProvider.cpp:215-224 | exactly the consumers that want the frame and have room get it once; exactly those without room are bad |
| FeedGraph.Accepts | server/src/base/ozFeedBase.cpp:24-30 | a link accepts a frame exactly if all its comparators do |
| FeedGraph.WantsMeans | server/src/base/ozFeedProvider.cpp:219-221 | a frame is wanted exactly if the link is queued and all its comparators accept |
| FeedGraph.FeedProvider.Evict | server/src/base/ozFeedProvider.cpp:225-226 | the bad consumers are gone from both sides |
| FeedGraph.FeedProvider.DistributeFrame | server/src/base/ozFeedProvider.cpp:212-233 | queues, maps of both sides, state and last frame after a distribution |
| FeedGraph.FeedProvider.PollFrame | server/src/base/ozFeedProvider.cpp:240-248 | a poll of the object is a poll of the value its calls have led to |
| FeedGraph.PollMeans | server/src/base/ozFeedProvider.cpp:212-248 | in every run a poll returns the last frame distributed while polling was on; nothing before there is one, while polling is off, or once the provider has ended or failed |
| FeedGraph.FeedFollows | server/src/base/ozFeedProvider.h:78-80 | the provider is ready if and only if it was made ready or has distributed a frame, and has neither ended nor failed, in whatever order |
| FeedGraph.FeedProvider.SetReady | server/src/base/ozFeedProvider.h:78 | only a waiting provider becomes ready |
| FeedGraph.FeedProvider.SetEnded | server/src/base/ozFeedProvider.h:79 | a failed provider stays failed |
| FeedGraph.FeedProvider.SetError | server/src/base/ozFeedProvider.h:80 | any provider can fail |
| FeedGraph.FeedProvider.SetPolling | server/src/base/ozFeedProvider.h:132 | polling is turned on or off, the last frame stays |
| FeedGraph.RegisterConsumer | server/src/base/ozFeedProvider.cpp:146-157 | on the objects of a whole graph the call does what connecting does on the graph value |
| FeedGraph.RegisterProvider | server/src/base/ozFeedConsumer.cpp:38-52 | likewise, from the consumer's side |
| FeedGraph.DeregisterConsumer | server/src/base/ozFeedProvider.cpp:167-176 | on the objects of a whole graph the call cuts this edge and no other |
| FeedGraph.DeregisterProvider | server/src/base/ozFeedConsumer.cpp:62-71 | likewise, from the consumer's side |
| FeedGraph.CleanupConsumer | server/src/base/ozFeedConsumer.cpp:8-19 | on the objects of a whole graph the consumer loses all its edges, and no one else any |
| FeedGraph.CleanupProvider | server/src/base/ozFeedProvider.cpp:126-136 | likewise for a provider |
| FeedGraph.DistributeFrame | server/src/base/ozFeedProvider.cpp:212-233 | on the objects of a whole graph the frame goes where it is wanted and fits, and only overrun consumers lose an edge |
| FeedGraph.ApplyAgrees | server/src/base/ozFeedProvider.cpp:126-176 | when p is in c's map if and only if c is in p's, that still holds after a call if and only if the call does not deregister one side of a link without telling the other |
| FeedGraph.ForgettingBreaks | server/src/base/ozFeedProvider.cpp:167-176 | two objects registered with each other, one of which forgets the other |
| FeedGraph.CutOneSideAgrees | server/src/base/ozFeedConsumer.cpp:62-71 | deregistering without reciprocation keeps agreement if and only if there was no link |
| FeedGraph.ForgetConsumer | server/src/base/ozFeedProvider.cpp:167-176 | on the objects of a whole graph the provider's side alone loses this edge |
| FeedGraph.ForgetProvider | server/src/base/ozFeedConsumer.cpp:62-71 | likewise the consumer's side alone |
| FeedGraph.ApplyBounded | server/src/base/ozFeedConsumer.cpp:38-46 | after every call no consumer is over its provider limit and no queue over 10000 |
| FeedGraph.ApplyLinks | server/src/base/ozFeedProvider.cpp:126-226 | exactly which links exist after each call, from a graph whose sides agree |
| FeedGraph.RunAgreesExactlyWhen | server/src/base/ozFeedProvider.cpp:126-233 | both sides agree after every call of a run if and only if no call of it forgets a link that is there |
| FeedGraph.RunKeepsBounds | server/src/base/ozFeedConsumer.cpp:38-46 | in every run, whatever is forgotten, the provider and queue limits hold after every call |
| FeedGraph.RunKeepsClosed | server/src/base/ozFeedProvider.cpp:126-233 | and every link is to a member of the graph, which is what distribution on the objects needs |
| FeedGraph.QueueHoldsArrivals | server/src/base/ozFeedConsumer.cpp:219-234 | between drains a queue gains exactly the frames offered to it and taken, in arrival order |
| FeedGraph.FreshGraphShows | server/src/base/ozFeedProvider.cpp:88-98 | newly made objects form a graph that starts every such run |
| ByteBuffer.Buffer.Tidy | server/src/libgen/libgenBuffer.h:316-322 | an empty window goes back to the front; the contents stay |
| ByteBuffer.Buffer.Expand | server/src/libgen/libgenBuffer.h:219-256 | the contents stay, at least count bytes of room follow the tail, and an allocation that grows ends at most at the size and twice count |
| ByteBuffer.Buffer.Append | server/src/libgen/libgenBuffer.h:273-282 | the contents grow by the given bytes at the end |
| ByteBuffer.Buffer.Insert | server/src/libgen/libgenBuffer.h:287-297 | the contents grow by the given bytes at the front |
| ByteBuffer.Buffer.Consume | server/src/libgen/libgenBuffer.h:192-203 | bytes go from the front, at most all of them |
| ByteBuffer.Buffer.Shrink | server/src/libgen/libgenBuffer.h:205-217 | bytes go from the end, at most all of them |
| ByteBuffer.Buffer.Extract | server/src/libgen/libgenBuffer.h:259-271 | the returned pointer shows the bytes taken off the front |
| ByteBuffer.Buffer.Assign | server/src/libgen/libgenBuffer.h:155-170 | the contents become the given bytes |
| ByteBuffer.Buffer.Range | server/src/libgen/libgenBuffer.h:361-370 | a fresh buffer with that part of the contents, or a panic exactly when it is not inside them |
| ByteBuffer.RunStream | server/src/libgen/libgenBuffer.h:192-282 | in every run of appends and extractions on a buffer, however much goes through it, what comes out followed by what is left is what was there followed by what went in: no byte is lost, repeated or reordered |
| ByteBuffer.FirstInFirstOut | server/src/libgen/libgenBuffer.h:192-282 | the same of the sequences that the run is proved against |
| HttpRequest.SplitIntoTokens | server/src/libgen/libgenUtils.cpp:593-635 | the loop computes the tokens of the string up to its first NUL, under every combination of flags |
| HttpRequest.InterleaveUndoesSplit | server/src/libgen/libgenUtils.cpp:593-635 | for every separator and with or without alternatives, the tokens and the separators found between them give the string back |
| HttpRequest.SepsAreSeparators | server/src/libgen/libgenUtils.cpp:603-612 | each separator found is the one given, or with alternatives one of its characters |
| HttpRequest.TokensHoldNone | server/src/libgen/libgenUtils.cpp:614-634 | no token holds a separator |
| HttpRequest.MultiDropsEmpty | server/src/libgen/libgenUtils.cpp:617-627 | with the multi flag the tokens are the same without the empty ones |
| HttpRequest.PathSplits | server/src/protocols/ozHttpConnection.cpp:137 | with both flags the path /a/b splits into a and b |
| HttpRequest.FindsFirst | server/src/libgen/libgenUtils.cpp:603-614 | the search finds the first separator and no earlier position holds one |
| HttpRequest.StandsAtSlice | server/src/libgen/libgenUtils.cpp:608-614 | where the separator is found, the string holds it |
| HttpRequest.SliceStandsAt | server/src/libgen/libgenUtils.cpp:608-614 | where the string holds the separator, it is found |
| HttpRequest.JoinUndoesSplit | server/src/libgen/libgenUtils.cpp:593-635 | joining the tokens gives the string back, up to one separator at its end |
| HttpRequest.LastLineEmpty | server/src/protocols/ozHttpConnection.cpp:88-99 | the completeness test: the last line is empty if and only if the text is one line break or ends with two |
| HttpRequest.ReceiveByCompleteness | server/src/protocols/ozHttpConnection.cpp:81-99 | for any text, NUL bytes included: a call rejects it when nothing comes before the first NUL, parses it when what does is complete, and otherwise keeps all of it |
| HttpRequest.HttpConnection.RecvRequest | server/src/protocols/ozHttpConnection.cpp:77-132 | one call saves, rejects or takes the request as specified, merging what was saved |
| HttpRequest.HttpConnection.ParseLines | server/src/protocols/ozHttpConnection.cpp:101-132 | the loop takes a request as the parse described next does |
| HttpRequest.ParseMeans | server/src/protocols/ozHttpConnection.cpp:101-132 | a request is accepted if and only if its first line is three words with a known version and every header line splits in two; it then holds those words, a name is in its headers if and only if some line names it, and its value is that of the first such line |
| HttpRequest.HeadersMean | server/src/protocols/ozHttpConnection.cpp:120-132 | the same for the header lines from any line on, with names already known kept |
| HttpRequest.Reassembles | server/src/protocols/ozHttpConnection.cpp:77-99 | a text cut into any pieces is stored at all cuts and taken whole at the end if and only if it can be taken at the end and at no earlier cut |
| HttpRequest.AnySplitWorks | server/src/protocols/ozHttpConnection.cpp:77-99 | a request whose only blank line is its end, not starting with one, is reassembled from any pieces |
| Base64.EncodeLoop | server/src/libgen/libgenUtils.cpp:316-358 | the loop over a three-byte array computes the encoding, padding included |
| Base64.DecodeLoop | server/src/libgen/libgenUtils.cpp:367-410 | the loop over a four-character array computes the decoding of the text up to the first foreign character |
| Base64.SextetsAreDigits | server/src/libgen/libgenUtils.cpp:327-330 | the four values are the base-64 digits of the 24-bit number the three bytes are |
| Base64.OctetsAreDigits | server/src/libgen/libgenUtils.cpp:384-386 | the three bytes are the base-256 digits of the 24-bit number the four values are |
| Base64.EncodedAt | server/src/libgen/libgenUtils.cpp:324-350 | each character comes from its own place in its own group of three bytes, the last one filled up with zeros |
| Base64.DecodedAt | server/src/libgen/libgenUtils.cpp:376-406 | each byte comes from its own place in its own group of four characters |
| Base64.DecodedLength | server/src/libgen/libgenUtils.cpp:376-406 | three bytes for every four characters, and of a rest one less than there are |
| Base64.CharReadsAlphabet | server/src/libgen/libgenUtils.cpp:267-270 | the characters are those of the alphabet string, position by position |
| Base64.OtherCharacters | server/src/libgen/libgenUtils.cpp:280-282 | exactly the characters of the alphabet string are decoded |
| Base64.FindUndoesChar | server/src/libgen/libgenUtils.cpp:376-382 | looking a character of the alphabet up gives its position back; it is never the padding character |
| Base64.EncodedLength | server/src/libgen/libgenUtils.cpp:338-354 | four characters for every three bytes begun (section 4 of RFC 4648) |
| Base64.UnpaddedIsBase64 | server/src/libgen/libgenUtils.cpp:280-282 | before the padding only characters of the alphabet stand |
| Base64.DecodeUndoesEncode | server/src/libgen/libgenUtils.cpp:316-410 | decoding undoes encoding for every byte string |
| MatrixTiles.PlaceTile | server/src/processors/ozMatrixVideo.cpp:166-199 | with the pointers and line sizes the loop sets, the scaler finds every byte of the tile at its address in the plane of the picture, the first plane at full height and the others at chroma height; planes that do not exist are left alone |
| MatrixTiles.ApartExactlyWhen | server/src/processors/ozMatrixVideo.cpp:166-198 | for any plane, whether or not the rows the scaler writes are those the code assumes: no byte is written by two places of the tiles if and only if there is one row of tiles or each ends before the next begins |
| MatrixTiles.InsideExactlyWhen | server/src/processors/ozMatrixVideo.cpp:166-198 | nothing is written outside the plane if and only if the last row of tiles ends within it |
| MatrixTiles.CoversExactlyWhen | server/src/processors/ozMatrixVideo.cpp:166-198 | no byte is left out if and only if the bytes written reach the end of the plane without a gap |
| MatrixTiles.FillsIffFits | server/src/processors/ozMatrixVideo.cpp:166-198 | (tile, row, column) to offset is a bijection onto the plane if and only if each row of tiles ends where the next begins and the last where the plane ends |
| MatrixTiles.RegularFits | server/src/processors/ozMatrixVideo.cpp:176-198 | where the scaler writes the rows the code assumes, that is, if and only if lines and heights add up |
| MatrixTiles.PartsAddUp | server/src/processors/ozMatrixVideo.cpp:133-187 | exactly when equal parts, each rounded up to whole chroma samples, add up to the rounded whole |
| MatrixTiles.TilesFillPicture | server/src/processors/ozMatrixVideo.cpp:133-199 | for every picture, grid and subsampling that the code takes as it is, with unpadded lines, exactly when the tiles fill the plane byte for byte |
| MatrixTiles.TilesApartInPicture | server/src/processors/ozMatrixVideo.cpp:133-199 | for every picture, grid and subsampling: tiles overlap exactly when there are several rows of them and rounding up makes their lines longer than the picture's |
| MatrixTiles.TilesInsidePicture | server/src/processors/ozMatrixVideo.cpp:133-199 | nothing is written outside the plane if and only if its end is not passed, and so when rounding up makes neither direction too long |
| MatrixTiles.FullResolutionInside | server/src/processors/ozMatrixVideo.cpp:133-182 | which it never does in a plane that is not subsampled |
| MatrixTiles.WidthSticksOut | server/src/processors/ozMatrixVideo.cpp:183-198 | for 6x4 pixels in 2x1 tiles the 4:2:0 chroma tiles do not overlap, they write past the plane |
| MatrixTiles.HeightSticksOut | server/src/processors/ozMatrixVideo.cpp:183-198 | so do those of 8x6 pixels in 1x2 tiles |
| MatrixTiles.TilesOverlap | server/src/processors/ozMatrixVideo.cpp:183-198 | those of 6x8 pixels in 2x2 tiles overlap |
| MatrixTiles.TilesLeaveGap | server/src/processors/ozMatrixVideo.cpp:183-198 | those of 10x8 pixels in 4x2 tiles leave gaps |
| MatrixTiles.AlphaFillsExactlyWhen | server/src/processors/ozMatrixVideo.cpp:176-187 | an alpha plane has full height but is taken for a chroma plane: its tiles fill it if and only if the grid divides the picture and there is one row of tiles, no vertical subsampling, or one line to a tile |
| MatrixTiles.AlphaApartExactlyWhen | server/src/processors/ozMatrixVideo.cpp:176-187 | exactly when its tiles do not overlap |
| MatrixTiles.AlphaInside | server/src/processors/ozMatrixVideo.cpp:176-187 | they never leave the plane |
| MatrixTiles.AlphaTilesOverlap | server/src/processors/ozMatrixVideo.cpp:176-187 | with 8x8 pixels in 1x2 tiles and 4:2:0 chroma the tiles of the alpha plane overlap |
| MatrixTiles.FullResolution | server/src/processors/ozMatrixVideo.cpp:133-182 | in a plane that is not subsampled: exactly when the grid divides the picture |
| MatrixTiles.EvenParts | server/src/processors/ozMatrixVideo.cpp:183-187 | in a subsampled plane even parts are enough |

## Left out

- Double2Rational: models doubles as exact reals, so rounding is not captured, and longs as unbounded integers; inputs are not negative, an input that is returned as it stands fits the int, and maxden is below 2^31-1.
- Thread interleavings and lock order: every public call is one atomic step.
- ffmpeg, swscale, libjpeg, sockets and files: encoding, opening, closing, writing and notifying are entries in a log; the line sizes that avpicture_fill computes are inputs.
- Fatal errors at registration (provider limit, polled link) are preconditions; other panics are error results.
- FeedConsumer and FeedProvider overrides in subclasses (fallback, matrix, pooled encoders), the global provider map, and waiting for or checking providers.
- The static mLastAlarmTime that all instances of a recorder share: one instance is modelled.
- The queue each consumer thread takes its frames from: the machines start from the frames taken, in order.
- Mp4FileOutput: the time offset that is never used; the frame rate and the time base are inputs.
- The encoder's frame loop around the walk, and codec set-up.
- MotionDetector: zones and blobs, where a preclusive alarm is an input; the 16-bit grey branch; the option that turns fast start off, and a frame count wrapping at 2^64.
- ByteBuffer: resizing, fill, adopted storage, tidy levels above 0, a source that points into the buffer's own storage, element types wider than a byte, and expanding an allocation of 2^31 bytes and more, where the ints in expand overflow.
- HttpRequest: dispatching the parsed request and sending responses; sockets deliver the pieces.
- linked_ptr: conversions between element types, and a right-hand handle that lives inside the object being released.
- MatrixTiles: widths and heights of tiles beyond 16 bits, padded lines, scaling itself, and the provider list.
- Image, Mask, polygons, configuration, time helpers, rate limiter and delay buffer: easy members or bodies that are not shown.
