# DeepAR video processing: a verified model of the transcoding core

This project models, in Dafny, the sequential core of the DeepAR Android video
processing example: the part of `VideoProcessor` that selects the video track,
works out the job's geometry, lists the video decoders, feeds the decoder,
copies decoded frames (Y, then V, then U) into the buffer handed to the AR
engine and re-stamps the encoder's output with the decoder's presentation
times through a FIFO; and the polling loop of `MediaDecoderHandlerThread`,
which feeds its own decoder, copies every frame into one of two reusable
buffers in turn and hands it to the engine.

All codec callbacks of one job run one after another on a single handler
thread, so each callback is one method of a class whose fields are the job's
state. The platform (extractor, codecs, muxer, AR engine) appears only as
values: a track is a sequence of samples read through a cursor, a codec event
is a method argument, and every call into the muxer or the engine is recorded
as the value handed to it. Exceptions the code raises become error results
(`Failure`, `Desync`, `Overflow`) that leave the state as it was at the throw.
In `VideoProcessor` nothing catches an exception thrown from a codec callback,
so such a result (`Desync`, `FrameOverflow`) sets `failed` and no later callback
of that job is accepted.

Modules, one file each:

- `Wrappers` (`wrappers.dfy`): `Option` and `Result`.
- `MediaTypes` (`media_types.dfy`): bytes, samples, images, buffer infos, the
  codec flag and status constants, and `ByteBuffer` as a value (`Allocate`,
  `Put`, `Rewind`).
- `Geometry` (`geometry.dfy`): `findVideoTrack`, the rotation default and
  swap, and `setupMediaExtractor` as one function returning the selected
  source or `TrackNotFound`.
- `Codecs` (`codecs.dfy`): `codecSupportsVideoMime` and the
  `getSupportedDecoderNames` loop.
- `YuvFrame` (`yuv_frame.dfy`): the Y, V, U layout, its inverse, and the copy
  into the shared buffer.
- `DecoderFeed` (`decoder_feed.dfy`): the two input-feeding rules, the
  callback one of `VideoProcessor` and the polling one of the handler thread.
- `TimestampCorrelator` (`timestamp_correlator.dfy`): the re-stamping rule
  and its FIFO laws over any interleaving of decoded frames and encoded units.
- `Transcoder` (`video_processor.dfy`): class `VideoProcessor` with the
  decoder and encoder callbacks, `processFrame` and `cleanUp`.
- `DecoderThread` (`decoder_thread.dfy`): the loop specification (`Step`,
  `Run`) with its invariants, and class `MediaDecoderHandlerThread` with
  `setFilenameAndStart` and `readData`, each proved to do what `Run` says.

The handler thread's `for(;;)` loop never ends by itself. It is driven here by
a finite list of poll answers (`Poll`): whether `dequeueInputBuffer` gave a
buffer, and what `dequeueOutputBuffer` returned. When the list runs out the
loop is reported as still polling (`StillPolling`).

Points of the code's behaviour that the model keeps exactly as written:

- On a decoder output flagged end-of-stream the code signals the encoder and
  then still processes the image and queues its time. It does not skip the frame.
- `VideoProcessor`'s input callback has no once-only guard. Every callback
  after the last sample queues another zero-length end-of-stream buffer
  (`DecoderFeed.FeedCallbacksAfterEnd`).
- The dimensions are swapped for every rotation other than 0 and 180, not
  only for 90 and 270.
- A missing video track is an `IllegalArgumentException` in `VideoProcessor`
  (`TrackNotFound`). In the handler thread it is a silent return (`NoVideoTrack`).
- The encoder callback throws on any pop from an empty queue, including the
  pop for a unit flagged end-of-stream.
- Flags are compared with `==`, as in the code, not tested bit by bit. A unit
  flagged end-of-stream together with another flag does not end the job.

## Model

| member | source | states |
|---|---|---|
| MediaTypes.Allocate | app/src/main/java/ai/deepar/video_processing_example/MediaDecoderHandlerThread.java:110-112 | a new direct buffer has exactly the requested capacity, is zero-filled and sits at position 0 |
| MediaTypes.Put | app/src/main/java/ai/deepar/video_processing_example/MediaDecoderHandlerThread.java:169 | `put` overflows exactly when the source does not fit after the position; otherwise the buffer keeps its capacity and the position advances by the number of bytes |
| MediaTypes.PutContents | app/src/main/java/ai/deepar/video_processing_example/MediaDecoderHandlerThread.java:169 | after a successful `put` the source bytes sit at the old position and every byte before and after them is kept |
| Geometry.FindVideoTrackFrom | app/src/main/java/ai/deepar/video_processing_example/VideoProcessor.java:212-218 | the search from an index returns the first later track whose MIME type equals "video/avc" ignoring case, and -1 exactly when no such track remains |
| Geometry.FindVideoTrack | app/src/main/java/ai/deepar/video_processing_example/VideoProcessor.java:211-219 | the result is the smallest index of a "video/avc" track (ignoring case), no earlier track matches, and -1 is returned exactly when none matches |
| Geometry.RotationOf | app/src/main/java/ai/deepar/video_processing_example/VideoProcessor.java:107-111 | an absent rotation key gives rotation 0; a present one gives its value |
| Geometry.Rotate | app/src/main/java/ai/deepar/video_processing_example/VideoProcessor.java:112-113 | the rotated size equals the source size for rotation 0 or 180 and is the swapped size for every other rotation |
| Geometry.RotationLaw | app/src/main/java/ai/deepar/video_processing_example/VideoProcessor.java:112-113 | for the quarter turns 90 and 270 width and height swap; for 0 and 180 they stay |
| Geometry.RotateInvolution | app/src/main/java/ai/deepar/video_processing_example/VideoProcessor.java:112-113 | rotating the rotated size again gives back the source size, and the pixel count is unchanged |
| Geometry.SetupMediaExtractor | app/src/main/java/ai/deepar/video_processing_example/VideoProcessor.java:94-113 | setup fails with TrackNotFound exactly when no track is "video/avc"; otherwise it selects the first such track, takes its samples and size, and the job geometry is that size rotated by the track's rotation (0 when absent), so the size is swapped for every rotation other than 0 and 180 |
| Codecs.CodecSupportsVideoMime | app/src/main/java/ai/deepar/video_processing_example/VideoProcessor.java:231-238 | true exactly when some supported type equals "video/avc" ignoring case |
| Codecs.VideoDecoderNames | app/src/main/java/ai/deepar/video_processing_example/VideoProcessor.java:221-229 | the reference listing is, by its definition, the names of the non-encoder "video/avc" codecs in order; its own contract only bounds its length by the number of codecs, and its content is stated by VideoDecoderNamesMembership and VideoDecoderNamesAppend |
| Codecs.VideoDecoderNamesAppend | app/src/main/java/ai/deepar/video_processing_example/VideoProcessor.java:223-227 | the listing of two codec lists one after the other is the first listing followed by the second, so the original order is kept |
| Codecs.VideoDecoderNamesMembership | app/src/main/java/ai/deepar/video_processing_example/VideoProcessor.java:224-225 | a name is listed exactly when some non-encoder codec supporting "video/avc" carries it |
| Codecs.GetSupportedDecoderNames | app/src/main/java/ai/deepar/video_processing_example/VideoProcessor.java:221-229 | the loop returns exactly the names of the video decoders in listing order |
| YuvFrame.AssembleFrame | app/src/main/java/ai/deepar/video_processing_example/VideoProcessor.java:250-255 | the frame has length ySize + uSize + vSize, with Y at [0, ySize), V at [ySize, ySize + vSize) and U from ySize + vSize to the end |
| YuvFrame.SplitFrame | app/src/main/java/ai/deepar/video_processing_example/VideoProcessor.java:250-255 | the inverse of the Y, V, U layout (the code itself never splits a frame): cutting a frame at the Y and V sizes gives planes of those sizes and U of the rest |
| YuvFrame.SplitAssembled | app/src/main/java/ai/deepar/video_processing_example/VideoProcessor.java:250-255 | splitting an assembled frame at the plane sizes gives back Y, U and V |
| YuvFrame.AssembleSplit | app/src/main/java/ai/deepar/video_processing_example/VideoProcessor.java:250-255 | assembling the split planes gives back the frame, so the layout loses nothing |
| YuvFrame.ChromaPositions | app/src/main/java/ai/deepar/video_processing_example/MediaDecoderHandlerThread.java:162-167 | byte k of V sits at ySize + k and byte k of U at ySize + vSize + k: the chroma planes are swapped |
| YuvFrame.CopyFrame | app/src/main/java/ai/deepar/video_processing_example/VideoProcessor.java:257-260 | copying into the rewound buffer overflows exactly when the frame is longer than the buffer; otherwise the buffer keeps its size, ends at position 0, starts with the frame and keeps its other bytes |
| DecoderFeed.FeedOnCallback | app/src/main/java/ai/deepar/video_processing_example/VideoProcessor.java:286-301 | past the last sample a zero-length buffer with time 0 and the end-of-stream flag is queued and the cursor stays; otherwise the sample is queued with its time and the cursor advances, flagged end-of-stream exactly when it is the last sample and 0 otherwise |
| DecoderFeed.FeedCallbacks | app/src/main/java/ai/deepar/video_processing_example/VideoProcessor.java:292-300 | by its definition the fold of n successive input callbacks; its own contract only says that n callbacks queue exactly n buffers, and what they queue is stated by FeedCallbacksDeliversAll and FeedCallbacksAfterEnd |
| DecoderFeed.FeedCallbacksDeliversAll | app/src/main/java/ai/deepar/video_processing_example/VideoProcessor.java:292-300 | one callback per remaining sample queues every sample once, in order, with its own time, and only the last carries the end-of-stream flag |
| DecoderFeed.FeedCallbacksAfterEnd | app/src/main/java/ai/deepar/video_processing_example/VideoProcessor.java:293-295 | once the samples are used up, every further callback queues the end-of-stream buffer again |
| DecoderFeed.FeedOnPoll | app/src/main/java/ai/deepar/video_processing_example/MediaDecoderHandlerThread.java:117-129 | past the last sample the end-of-stream buffer is queued and end_of_input_file becomes true; otherwise the sample is queued with its time and flags 0 and the extractor advances by one |
| DecoderFeed.FedSoFar | app/src/main/java/ai/deepar/video_processing_example/MediaDecoderHandlerThread.java:117-129 | by its definition the buffers fed up to a cursor; its own contract only counts one buffer per sample before the cursor plus one when end-of-stream was sent, and their content is stated by FedSoFarContents |
| DecoderFeed.FeedOnPollExtends | app/src/main/java/ai/deepar/video_processing_example/MediaDecoderHandlerThread.java:117-129 | one polling input step keeps the fed buffers equal to the samples before the cursor, followed by at most one end-of-stream buffer |
| DecoderFeed.FedSoFarContents | app/src/main/java/ai/deepar/video_processing_example/MediaDecoderHandlerThread.java:126-128 | the k-th fed buffer is sample k with its time and flags 0, and the end-of-stream buffer comes last when it was sent |
| TimestampCorrelator.Restamp | app/src/main/java/ai/deepar/video_processing_example/VideoProcessor.java:346-353 | a codec-config unit keeps its time and the queue; any other unit fails exactly on an empty queue, and otherwise takes the head as its time, keeps its flags and leaves the rest of the queue |
| TimestampCorrelator.CorrelateFifo | app/src/main/java/ai/deepar/video_processing_example/VideoProcessor.java:346-353 | over any interleaving without failure, the times written on frame units followed by the queue left are the initial queue followed by every offered time in offer order, and the queue length is offers minus pops |
| TimestampCorrelator.PopKeepsOrder | app/src/main/java/ai/deepar/video_processing_example/VideoProcessor.java:347-351 | moving the queue's head onto a written frame unit keeps the order of all times |
| TimestampCorrelator.CorrelateWritesEachUnit | app/src/main/java/ai/deepar/video_processing_example/VideoProcessor.java:355 | one unit is written per encoder output, in order, with its own flags, and a codec-config unit is written exactly as reported |
| TimestampCorrelator.CorrelateFailsIffStarved | app/src/main/java/ai/deepar/video_processing_example/VideoProcessor.java:347-349 | the run fails exactly when some popping unit arrives after as many pops as there were times; without that, pops never exceed times |
| TimestampCorrelator.DrainedJobStampsEveryFrame | app/src/main/java/ai/deepar/video_processing_example/VideoProcessor.java:317 | when nothing failed and the queue ends empty, the frame units carry exactly the offered times in decode order, and pops equal pushes |
| Transcoder.VideoProcessor.constructor | app/src/main/java/ai/deepar/video_processing_example/VideoProcessor.java:89 | a job starts with a zeroed buffer of width * height * 3 bytes, an empty queue and nothing written or handed to the engine |
| Transcoder.VideoProcessor.OnDecoderInputBufferAvailable | app/src/main/java/ai/deepar/video_processing_example/VideoProcessor.java:286-301 | without an input buffer nothing happens; otherwise exactly the buffer FeedOnCallback names is queued and the cursor moves as it says |
| Transcoder.VideoProcessor.ProcessFrame | app/src/main/java/ai/deepar/video_processing_example/VideoProcessor.java:240-262 | the Y, V, U frame is copied to the front of the rewound buffer and that buffer is handed to the engine with the image size, the job rotation and plane 1's pixel stride; an overflow changes nothing |
| Transcoder.VideoProcessor.OnDecoderOutputBufferAvailable | app/src/main/java/ai/deepar/video_processing_example/VideoProcessor.java:304-319 | an output flagged exactly end-of-stream signals the encoder and is still processed; a null image changes nothing else; a frame that fits is copied to the front of the rewound buffer, the engine receives that buffer with the image size, the job rotation and plane 1's pixel stride after all earlier engine frames, and its time goes to the back of the queue; a frame that does not fit changes nothing and ends the job |
| Transcoder.VideoProcessor.OnEncoderOutputBufferAvailable | app/src/main/java/ai/deepar/video_processing_example/VideoProcessor.java:340-367 | without an output buffer nothing happens; otherwise the unit is re-stamped as Restamp says and written on the muxer track, a non-config unit fails exactly on an empty queue and then writes nothing and ends the job, and a written unit flagged end-of-stream posts the teardown |
| Transcoder.VideoProcessor.OnEncoderOutputFormatChanged | app/src/main/java/ai/deepar/video_processing_example/VideoProcessor.java:375-380 | the muxer track gets the job's rotated size and its index is kept for writing |
| Transcoder.VideoProcessor.CleanUp | app/src/main/java/ai/deepar/video_processing_example/VideoProcessor.java:271-281 | the queue is emptied and the job released; a second call drops nothing more |
| Transcoder.WrittenFramesFollowDecodeOrder | app/src/main/java/ai/deepar/video_processing_example/VideoProcessor.java:317 | on a running job the written frame times, then the times dropped by cleanUp, then the queued times are every offered time in offer order, and no more frame units were written than frames reached the engine |
| DecoderThread.FirstVideoTrackFrom | app/src/main/java/ai/deepar/video_processing_example/MediaDecoderHandlerThread.java:79-92 | the chosen track is the first whose MIME type starts with "video/" (case-sensitive), and -1 exactly when none does |
| DecoderThread.FreshPool | app/src/main/java/ai/deepar/video_processing_example/MediaDecoderHandlerThread.java:107-113 | the pool has NUMBER_OF_BUFFERS buffers, each of the given capacity and at position 0 |
| DecoderThread.Step | app/src/main/java/ai/deepar/video_processing_example/MediaDecoderHandlerThread.java:116-190 | one pass keeps two buffers and currentBuffer below NUMBER_OF_BUFFERS, and never reports a missing decoder |
| DecoderThread.Run | app/src/main/java/ai/deepar/video_processing_example/MediaDecoderHandlerThread.java:115-190 | the loop keeps two buffers and currentBuffer below NUMBER_OF_BUFFERS |
| DecoderThread.StepOutput | app/src/main/java/ai/deepar/video_processing_example/MediaDecoderHandlerThread.java:132-179 | a pass releases the decoder exactly on non-zero flags or a null image, overflows exactly when the frame exceeds the capacity, and otherwise hands on the whole current buffer starting with the Y, V, U frame and advances currentBuffer by one modulo 2, leaving the other buffer alone |
| DecoderThread.OutputStepPool | app/src/main/java/ai/deepar/video_processing_example/MediaDecoderHandlerThread.java:132-179 | the output half releases the decoder exactly on non-zero flags or a null image, overflows exactly when the frame exceeds the capacity, keeps the pool valid, and changes no buffer, frame list or currentBuffer unless it delivers |
| DecoderThread.FrameFits | app/src/main/java/ai/deepar/video_processing_example/MediaDecoderHandlerThread.java:169-179 | a frame that fits is copied to the front of the current buffer, which stays whole at position 0 and is handed on with rotation 270, the other buffer is untouched and currentBuffer advances by one modulo 2 |
| DecoderThread.StepStops | app/src/main/java/ai/deepar/video_processing_example/MediaDecoderHandlerThread.java:134-151 | a pass releases the decoder exactly on an output with non-zero flags or a null image |
| DecoderThread.InputStep | app/src/main/java/ai/deepar/video_processing_example/MediaDecoderHandlerThread.java:117-131 | the input half touches neither the buffers, the delivered frames, currentBuffer nor outputBufferIndex |
| DecoderThread.StepFeed | app/src/main/java/ai/deepar/video_processing_example/MediaDecoderHandlerThread.java:117-129 | a pass keeps the feed consistent, feeds nothing once end_of_input_file is set or no input buffer is free, and feeds at most one buffer |
| DecoderThread.RunFeed | app/src/main/java/ai/deepar/video_processing_example/MediaDecoderHandlerThread.java:117-125 | over the whole loop the decoder is fed the samples in order and at most one end-of-stream buffer, and once end_of_input_file is set nothing more is fed |
| DecoderThread.StepRing | app/src/main/java/ai/deepar/video_processing_example/MediaDecoderHandlerThread.java:169-179 | a pass delivers nothing and keeps currentBuffer, or delivers one frame from slot currentBuffer and advances it by one modulo 2 |
| DecoderThread.RunDeliveredGrows | app/src/main/java/ai/deepar/video_processing_example/MediaDecoderHandlerThread.java:176 | the loop only appends to the frames handed to the engine |
| DecoderThread.StepKeepsRing | app/src/main/java/ai/deepar/video_processing_example/MediaDecoderHandlerThread.java:179 | a pass keeps the ring: frame k came from slot k mod 2 and currentBuffer is the count of frames mod 2 |
| DecoderThread.RunKeepsRing | app/src/main/java/ai/deepar/video_processing_example/MediaDecoderHandlerThread.java:36-37 | the whole loop keeps the ring, so currentBuffer stays in [0, 2) and consecutive frames alternate buffers |
| DecoderThread.RunPool | app/src/main/java/ai/deepar/video_processing_example/MediaDecoderHandlerThread.java:107-113 | the pool stays two buffers of the same capacity at position 0, and every frame delivered is a whole buffer of that capacity with rotation 270 |
| DecoderThread.RunExit | app/src/main/java/ai/deepar/video_processing_example/MediaDecoderHandlerThread.java:134-151 | while still polling no output had non-zero flags or a null image; when the decoder was released some such output occurred (where the loop stops is RunStopsAtFirst) |
| DecoderThread.RunStopsAtFirst | app/src/main/java/ai/deepar/video_processing_example/MediaDecoderHandlerThread.java:134-151 | when poll k is the first output with non-zero flags or a null image, the loop has left by then: its result equals the run over polls[..k + 1], so no later poll is processed, and it does not end still polling |
| DecoderThread.MediaDecoderHandlerThread.constructor | app/src/main/java/ai/deepar/video_processing_example/MediaDecoderHandlerThread.java:26-37 | no decoder, outputBufferIndex, width and height -1, no buffers, currentBuffer 0 |
| DecoderThread.MediaDecoderHandlerThread.ReadData | app/src/main/java/ai/deepar/video_processing_example/MediaDecoderHandlerThread.java:105-191 | without a decoder nothing changes; otherwise a fresh pool of width * height * 3 bytes is allocated and the fields end as Run says, the decoder is released exactly when Run says, the pool is still valid, new frames are whole buffers with rotation 270, and a consistent feed stays consistent |
| DecoderThread.MediaDecoderHandlerThread.AllocateBuffers | app/src/main/java/ai/deepar/video_processing_example/MediaDecoderHandlerThread.java:107-113 | the new buffer array is the fresh pool of width * height * 3 bytes and nothing else changes |
| DecoderThread.MediaDecoderHandlerThread.PollLoop | app/src/main/java/ai/deepar/video_processing_example/MediaDecoderHandlerThread.java:115-190 | the loop ends in the state and with the exit Run gives, and the decoder is open exactly unless it was released |
| DecoderThread.MediaDecoderHandlerThread.Iterate | app/src/main/java/ai/deepar/video_processing_example/MediaDecoderHandlerThread.java:116-189 | one pass does what Step says |
| DecoderThread.MediaDecoderHandlerThread.FeedInput | app/src/main/java/ai/deepar/video_processing_example/MediaDecoderHandlerThread.java:117-131 | the input half does what InputStep says and touches nothing of the output side |
| DecoderThread.MediaDecoderHandlerThread.HandleOutput | app/src/main/java/ai/deepar/video_processing_example/MediaDecoderHandlerThread.java:132-189 | the output half does what OutputStep says, and releases the decoder exactly on non-zero flags or a null image |
| DecoderThread.MediaDecoderHandlerThread.SelectVideoTrack | app/src/main/java/ai/deepar/video_processing_example/MediaDecoderHandlerThread.java:79-93 | the track loop stops at the index FirstVideoTrackFrom names, or runs through and gives -1 |
| DecoderThread.MediaDecoderHandlerThread.DecodeTrack | app/src/main/java/ai/deepar/video_processing_example/MediaDecoderHandlerThread.java:83-100 | width, height and samples come from the found track, a decoder is opened, the fields end as Run says from a fresh pool, end_of_input_file is cleared after an overflow, and a run that did not overflow leaves the feed consistent |
| DecoderThread.MediaDecoderHandlerThread.SetFilenameAndStart | app/src/main/java/ai/deepar/video_processing_example/MediaDecoderHandlerThread.java:71-101 | a new extractor clears end_of_input_file; the first "video/" track is decoded with its width and height, and with none (or when the file does not open) nothing is decoded and the decoder, buffers, deliveries, currentBuffer, outputBufferIndex, width and height are left as they were; afterwards the fields are those of Run from a fresh pool, end_of_input_file is cleared again only after an overflow, and a run that did not overflow leaves the feed consistent |

## Left out

- `MainActivity.java` (UI, permissions, file paths, thread start-up) and `Effect.java` (a record of three strings) are not part of this model.
- The platform calls (MediaExtractor, MediaCodec, MediaMuxer, Surface) are not modelled; samples, codec events and poll answers are parameters, and muxer and engine calls are recorded values.
- `setupMediaDecoder`, `setupMediaEncoder`, `setupMediaMuxer` and `setupDeepAR` configure platform objects only and are left out; `processVideo` is modelled as setup (`SetupMediaExtractor`) followed by the buffer allocation (`VideoProcessor` constructor). Their IOException path is left out.
- The DeepAR engine (`initialize`, `switchEffect`, `setRenderSurface`, `receiveFrame`) is foreign; a `receiveFrame` call is recorded as the buffer bytes and arguments it receives.
- Floating point: the bitrate heuristic, the frame rate, the duration and the progress percentage are not modelled, nor is the `onStep` report.
- `handler.post` and `mainHandler.post`: the teardown posted at end-of-stream is a flag (`teardownPosted`); `cleanUp` is its own method and `onSuccess` is not modelled.
- The restart-on-message handler of `MediaDecoderHandlerThread` (stop and release of a previous decoder) is left out; `SetFilenameAndStart` is modelled on its own.
- `cleanUp` releasing the extractor, codecs, muxer, surface and engine is left out; only the queue being emptied and the job being released are modelled.
- Transcoder.VideoProcessor: callbacks are required not to arrive after `cleanUp`, since released codecs deliver none, nor after a callback threw (`failed`), since the uncaught exception ends the job; the crash itself is not modelled.
- Logging, `onError` handlers, the decoder's empty `onOutputFormatChanged`, `releaseOutputBuffer`, `image.close()` and `System.currentTimeMillis` change no modelled state and are left out.
- Failures of `createDecoderByType`, `configure` and `start` in the handler thread are left out; a failing `setDataSource` is `NoDataSource`.
- The handler thread's loop is modelled for a finite prefix of poll answers; what it does after the last answer is not modelled.
- Transcoder.VideoProcessor.constructor: the capacity `width * height * 3` is computed on unbounded integers, without Java's 32-bit overflow.
- DecoderThread.MediaDecoderHandlerThread.AllocateBuffers: the capacity `width * height * 3` is computed on unbounded integers, without Java's 32-bit overflow.
- Timestamps are unbounded integers rather than Java `long`.
- `equalsIgnoreCase` folds ASCII letters only; other Unicode case pairs are not modelled.
- Byte order (`order(ByteOrder.nativeOrder())`) has no effect on byte copies and is left out.
- After an overflow in the handler thread the decoder stays open; what the next restart does with it is not modelled.
