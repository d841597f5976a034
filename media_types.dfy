/** Values exchanged with the Android media framework: byte buffers, extractor
    samples, track formats, decoded images and the MediaCodec constants the
    pipeline compares against. */
module MediaTypes {
  import opened Wrappers

  newtype byte = b: int | 0 <= b < 256

  type Bytes = seq<byte>

  // MediaCodec.BUFFER_FLAG_* values of the Android SDK.
  const BUFFER_FLAG_CODEC_CONFIG: int := 2
  const BUFFER_FLAG_END_OF_STREAM: int := 4

  // MediaCodec.INFO_* status codes returned by dequeueOutputBuffer.
  const INFO_TRY_AGAIN_LATER: int := -1
  const INFO_OUTPUT_FORMAT_CHANGED: int := -2
  const INFO_OUTPUT_BUFFERS_CHANGED: int := -3

  /** One access unit of the selected track, as MediaExtractor reads it. */
  datatype Sample = Sample(data: Bytes, timeUs: int)

  /** The keys of a track's MediaFormat that the pipeline reads; KEY_ROTATION may be absent. */
  datatype TrackFormat = TrackFormat(mime: string, width: nat, height: nat, rotation: Option<int>)

  /** A track of the input container: its format and its samples in extractor order. */
  datatype Track = Track(format: TrackFormat, samples: seq<Sample>)

  /** One plane of a YUV_420_888 Image: the bytes its buffer has remaining, and its pixel stride. */
  datatype Plane = Plane(bytes: Bytes, pixelStride: int)

  /** A decoded Image; getPlanes() is [y, u, v]. */
  datatype Image = Image(width: int, height: int, y: Plane, u: Plane, v: Plane)

  /** MediaCodec.BufferInfo: presentation time and flags of one codec buffer. */
  datatype BufferInfo = BufferInfo(presentationTimeUs: int, flags: int)

  /** An input buffer handed to the decoder with queueInputBuffer(index, 0, size, time, flags). */
  datatype InputBuffer = InputBuffer(data: Bytes, timeUs: int, flags: int)

  /** The zero-length end-of-stream buffer: size 0, time 0, BUFFER_FLAG_END_OF_STREAM. */
  function EndOfStreamBuffer(): InputBuffer {
    InputBuffer([], 0, BUFFER_FLAG_END_OF_STREAM)
  }

  /** A java.nio ByteBuffer whose limit is its capacity (the code never sets a limit):
      its contents, of length capacity, and its position. */
  datatype ByteBuf = ByteBuf(data: Bytes, position: nat)

  datatype BufferOverflow = BufferOverflow

  /** ByteBuffer.allocateDirect(capacity): zero-filled, positioned at 0. */
  function Allocate(capacity: nat): (b: ByteBuf)
    ensures |b.data| == capacity && b.position == 0
    ensures forall i :: 0 <= i < capacity ==> b.data[i] == 0
  {
    ByteBuf(seq(capacity, _ => 0), 0)
  }

  /** ByteBuffer.put(byte[] src): when src does not fit in the remaining space nothing is
      transferred and BufferOverflowException is raised; otherwise src is written at the
      position, which advances past it (PutContents: every other byte keeps its value). */
  function Put(b: ByteBuf, src: Bytes): (r: Result<ByteBuf, BufferOverflow>)
    ensures r.Failure? <==> b.position + |src| > |b.data|
    ensures r.Success? ==> |r.value.data| == |b.data| && r.value.position == b.position + |src|
  {
    if b.position + |src| > |b.data| then Failure(BufferOverflow)
    else Success(ByteBuf(b.data[..b.position] + src + b.data[b.position + |src|..], b.position + |src|))
  }

  /** What a successful put leaves in the buffer: src at the old position, the bytes
      before and after it unchanged. */
  lemma PutContents(b: ByteBuf, src: Bytes)
    requires b.position + |src| <= |b.data|
    ensures var d := Put(b, src).value.data;
      && d[b.position..b.position + |src|] == src
      && d[..b.position] == b.data[..b.position]
      && d[b.position + |src|..] == b.data[b.position + |src|..]
  {
  }

  /** ByteBuffer.position(0). */
  function Rewind(b: ByteBuf): ByteBuf {
    b.(position := 0)
  }
}
