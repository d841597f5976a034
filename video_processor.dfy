/** VideoProcessor's transcode job once setup has succeeded: the state its decoder and
    encoder callbacks share. Every callback of one job runs on the same Handler thread,
    one after another, so each is one method of this class. Codec, muxer and engine
    calls are recorded as the values handed to them. */
module Transcoder {
  import opened Wrappers
  import opened MediaTypes
  import opened Geometry
  import opened YuvFrame
  import opened DecoderFeed
  import opened TimestampCorrelator

  /** One call of DeepAR.receiveFrame: the shared buffer's bytes, the image size, the job's
      rotation and the pixel stride of plane 1. */
  datatype EngineFrame = EngineFrame(data: Bytes, width: int, height: int, rotation: int, pixelStride: int)

  /** One call of MediaMuxer.writeSampleData(trackIndex, buffer, info). */
  datatype MuxedSample = MuxedSample(trackIndex: int, info: BufferInfo)

  /** The track added to the muxer: the encoder's output format with the job's rotated size. */
  datatype MuxerTrack = MuxerTrack(width: int, height: int)

  datatype DecoderOutcome = NoImage | FrameSubmitted | FrameOverflow

  datatype EncoderOutcome = NoOutputBuffer | Written(sample: MuxedSample) | Desync(error: CorrelatorError)

  /** The infos of the written samples, in writing order. */
  function Infos(written: seq<MuxedSample>): (infos: seq<BufferInfo>)
    ensures |infos| == |written|
    ensures forall k :: 0 <= k < |written| ==> infos[k] == written[k].info
  {
    seq(|written|, k requires 0 <= k < |written| => written[k].info)
  }

  class VideoProcessor {
    const geometry: JobGeometry
    const samples: seq<Sample>          // the selected track, read through `cursor`
    var cursor: nat
    var buffer: ByteBuf                 // the direct buffer handed to DeepAR
    var timestampQueue: seq<int>
    var muxerTrackIndex: int
    var muxerTrack: Option<MuxerTrack>
    var written: seq<MuxedSample>       // what the muxer was given
    var engineFrames: seq<EngineFrame>  // what DeepAR was given
    var encoderEndOfStreamSignalled: bool
    var teardownPosted: bool            // cleanUp and onSuccess were posted
    var released: bool                  // cleanUp ran
    var failed: bool                    // a callback threw, which ends the job
    ghost var events: seq<Event>        // what the queue has seen
    ghost var discarded: seq<int>       // times dropped by cleanUp

    ghost predicate Valid()
      reads this
    {
      && |buffer.data| == geometry.width * geometry.height * 3
      && buffer.position == 0
      && cursor <= |samples|
      && Correlate([], events) == Success((Infos(written), discarded + timestampQueue))
      && |engineFrames| == |Offered(events)|
      && (released ==> timestampQueue == [])
      && (!released ==> discarded == [])
    }

    /** processVideo after setupMediaExtractor succeeded: the buffer of width * height * 3
        bytes is allocated and the queue is empty. */
    constructor (source: Source)
      ensures Valid()
      ensures geometry == source.geometry && samples == source.samples && cursor == 0
      ensures buffer == Allocate(source.geometry.width * source.geometry.height * 3)
      ensures timestampQueue == [] && written == [] && engineFrames == []
      ensures muxerTrackIndex == 0 && muxerTrack == None
      ensures !encoderEndOfStreamSignalled && !teardownPosted && !released && !failed
    {
      geometry := source.geometry;
      samples := source.samples;
      cursor := 0;
      buffer := Allocate(source.geometry.width * source.geometry.height * 3);
      timestampQueue := [];
      muxerTrackIndex := 0;
      muxerTrack := None;
      written := [];
      engineFrames := [];
      encoderEndOfStreamSignalled := false;
      teardownPosted := false;
      released := false;
      failed := false;
      events := [];
      discarded := [];
      new;
      assert Infos(written) == [] && discarded + timestampQueue == [];
      assert Correlate([], events) == Success(([], []));
    }

    /** The decoder's onInputBufferAvailable. Without an input buffer nothing happens;
        otherwise one buffer is queued as FeedOnCallback says. */
    method OnDecoderInputBufferAvailable(hasInputBuffer: bool) returns (queued: Option<InputBuffer>)
      requires Valid() && !released && !failed
      modifies this`cursor
      ensures Valid()
      ensures !hasInputBuffer ==> queued == None && cursor == old(cursor)
      ensures hasInputBuffer ==> queued == Some(FeedOnCallback(samples, old(cursor)).0)
                                 && cursor == FeedOnCallback(samples, old(cursor)).1
    {
      if !hasInputBuffer {
        return None;
      }
      var size := ReadSampleData(samples, cursor);
      if size < 0 {
        return Some(EndOfStreamBuffer());
      }
      var presentationTime := samples[cursor].timeUs;
      var (more, next) := Advance(samples, cursor);
      queued := Some(InputBuffer(samples[cursor].data[..size], presentationTime,
                                 if !more then BUFFER_FLAG_END_OF_STREAM else 0));
      cursor := next;
    }

    /** processFrame: lays out Y, V, U, copies the frame to the front of the shared buffer
        and hands that buffer to the engine. An overflow leaves everything as it was. */
    method ProcessFrame(image: Image) returns (ok: bool)
      requires Valid() && !released
      modifies this`buffer, this`engineFrames
      ensures var frame := AssembleFrame(image.y.bytes, image.u.bytes, image.v.bytes);
        && ok == CopyFrame(old(buffer), frame).Success?
        && (ok ==> buffer == CopyFrame(old(buffer), frame).value
                   && engineFrames == old(engineFrames) + [EngineFrame(buffer.data, image.width, image.height,
                                                                        geometry.rotation, image.u.pixelStride)])
        && (!ok ==> buffer == old(buffer) && engineFrames == old(engineFrames))
      ensures |buffer.data| == |old(buffer.data)| && buffer.position == 0
    {
      var byteData := AssembleFrame(image.y.bytes, image.u.bytes, image.v.bytes);
      var copied := CopyFrame(buffer, byteData);
      if copied.Failure? {
        return false;
      }
      buffer := copied.value;
      engineFrames := engineFrames + [EngineFrame(buffer.data, image.width, image.height,
                                                  geometry.rotation, image.u.pixelStride)];
      ok := true;
    }

    /** The decoder's onOutputBufferAvailable. An output flagged exactly end-of-stream
        signals the encoder, and then the image is processed all the same: a non-null
        image is handed to the engine and its time is appended to the queue. A frame that
        does not fit is the uncaught BufferOverflowException, which ends the job. */
    method OnDecoderOutputBufferAvailable(info: BufferInfo, image: Option<Image>) returns (r: DecoderOutcome)
      requires Valid() && !released && !failed
      modifies this
      ensures Valid()
      ensures encoderEndOfStreamSignalled == (old(encoderEndOfStreamSignalled) || info.flags == BUFFER_FLAG_END_OF_STREAM)
      ensures image.None? ==> r == NoImage
      ensures image.Some? ==>
        r == (if CopyFrame(old(buffer), AssembleFrame(image.value.y.bytes, image.value.u.bytes, image.value.v.bytes)).Success?
              then FrameSubmitted else FrameOverflow)
      ensures r == FrameSubmitted ==>
        && timestampQueue == old(timestampQueue) + [info.presentationTimeUs]
        && events == old(events) + [FrameDecoded(info.presentationTimeUs)]
        && buffer == CopyFrame(old(buffer), AssembleFrame(image.value.y.bytes, image.value.u.bytes, image.value.v.bytes)).value
        && engineFrames == old(engineFrames) + [EngineFrame(buffer.data, image.value.width, image.value.height,
                                                            geometry.rotation, image.value.u.pixelStride)]
        && AssembleFrame(image.value.y.bytes, image.value.u.bytes, image.value.v.bytes)
           <= engineFrames[|engineFrames| - 1].data
      ensures failed == (r == FrameOverflow)
      ensures r != FrameSubmitted ==>
        timestampQueue == old(timestampQueue) && events == old(events) && engineFrames == old(engineFrames)
        && buffer == old(buffer)
      ensures cursor == old(cursor) && written == old(written) && muxerTrackIndex == old(muxerTrackIndex)
      ensures muxerTrack == old(muxerTrack) && teardownPosted == old(teardownPosted) && !released
      ensures discarded == old(discarded)
    {
      if info.flags == BUFFER_FLAG_END_OF_STREAM {
        encoderEndOfStreamSignalled := true;
      }
      if image.None? {
        return NoImage;
      }
      var ok := ProcessFrame(image.value);
      if !ok {
        failed := true;
        return FrameOverflow;
      }
      timestampQueue := timestampQueue + [info.presentationTimeUs];
      events := events + [FrameDecoded(info.presentationTimeUs)];
      assert events[..|events| - 1] == old(events);
      assert discarded == [];
      assert discarded + timestampQueue == (discarded + old(timestampQueue)) + [info.presentationTimeUs];
      r := FrameSubmitted;
    }

    /** The encoder's onOutputBufferAvailable. Without an output buffer nothing happens.
        Otherwise the unit is re-stamped by Restamp: an empty queue under a unit that is
        not codec-config is the uncaught IllegalStateException, which writes nothing and
        ends the job. A written
        unit flagged exactly end-of-stream posts the teardown. */
    method OnEncoderOutputBufferAvailable(hasOutputBuffer: bool, info: BufferInfo) returns (r: EncoderOutcome)
      requires Valid() && !released && !failed
      modifies this
      ensures Valid()
      ensures !hasOutputBuffer ==> r == NoOutputBuffer
      ensures hasOutputBuffer ==>
        match Restamp(old(timestampQueue), info)
        case Failure(e) => r == Desync(e)
        case Success((out, rest)) =>
          && r == Written(MuxedSample(old(muxerTrackIndex), out))
          && timestampQueue == rest
          && written == old(written) + [r.sample]
          && events == old(events) + [UnitEncoded(info)]
          && teardownPosted == (old(teardownPosted) || info.flags == BUFFER_FLAG_END_OF_STREAM)
      ensures hasOutputBuffer && info.flags != BUFFER_FLAG_CODEC_CONFIG ==>
        (r.Desync? <==> old(timestampQueue) == [])
      ensures failed == r.Desync?
      ensures !r.Written? ==>
        timestampQueue == old(timestampQueue) && written == old(written) && events == old(events)
        && teardownPosted == old(teardownPosted)
      ensures cursor == old(cursor) && buffer == old(buffer) && engineFrames == old(engineFrames)
      ensures muxerTrackIndex == old(muxerTrackIndex) && muxerTrack == old(muxerTrack)
      ensures encoderEndOfStreamSignalled == old(encoderEndOfStreamSignalled) && !released
      ensures discarded == old(discarded)
    {
      if !hasOutputBuffer {
        return NoOutputBuffer;
      }
      var stamped := Restamp(timestampQueue, info);
      if stamped.Failure? {
        failed := true;
        return Desync(stamped.error);
      }
      var (out, rest) := stamped.value;
      timestampQueue := rest;
      var sample := MuxedSample(muxerTrackIndex, out);
      written := written + [sample];
      events := events + [UnitEncoded(info)];
      assert events[..|events| - 1] == old(events);
      assert Infos(written) == Infos(old(written)) + [out];
      assert discarded == [] && discarded + rest == rest;
      assert discarded + old(timestampQueue) == old(timestampQueue);
      if out.flags == BUFFER_FLAG_END_OF_STREAM {
        teardownPosted := true;
      }
      r := Written(sample);
    }

    /** The encoder's onOutputFormatChanged: the output format, resized to the job's rotated
        geometry, becomes the muxer's track (addTrack returned `trackIndex`) and the muxer starts. */
    method OnEncoderOutputFormatChanged(trackIndex: int)
      requires Valid() && !released && !failed
      modifies this`muxerTrackIndex, this`muxerTrack
      ensures Valid()
      ensures muxerTrackIndex == trackIndex
      ensures muxerTrack == Some(MuxerTrack(geometry.rotatedWidth, geometry.rotatedHeight))
    {
      muxerTrackIndex := trackIndex;
      muxerTrack := Some(MuxerTrack(geometry.rotatedWidth, geometry.rotatedHeight));
    }

    /** cleanUp, as far as the job's own state goes: the queue is emptied and the job is
        released. Running it again changes nothing more. */
    method CleanUp()
      requires Valid() && !failed
      modifies this`timestampQueue, this`released, this`discarded
      ensures Valid()
      ensures timestampQueue == [] && released
      ensures discarded == old(discarded) + old(timestampQueue)
      ensures old(released) ==> discarded == old(discarded)
    {
      discarded := discarded + timestampQueue;
      timestampQueue := [];
      released := true;
      assert discarded + timestampQueue == old(discarded) + old(timestampQueue);
    }
  }

  /** FIFO correspondence on a running job: the times on the written frame units, then the
      times dropped by cleanUp, then the times still queued, are every offered time in
      offer order; and no more frame units were written than frames reached the engine. */
  lemma WrittenFramesFollowDecodeOrder(p: VideoProcessor)
    requires p.Valid()
    ensures FrameStamps(Infos(p.written)) + p.discarded + p.timestampQueue == Offered(p.events)
    ensures |FrameStamps(Infos(p.written))| <= |p.engineFrames|
  {
    CorrelateFifo([], p.events);
    assert FrameStamps(Infos(p.written)) + (p.discarded + p.timestampQueue)
        == FrameStamps(Infos(p.written)) + p.discarded + p.timestampQueue;
  }
}
