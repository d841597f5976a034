/** The byte layout of a decoded frame handed to the AR engine (processFrame in
    VideoProcessor and the plane copy of readData in MediaDecoderHandlerThread):
    the Y plane, then the V plane, then the U plane. The two chroma planes are
    deliberately swapped with respect to the Image's plane order [Y, U, V]. */
module YuvFrame {
  import opened Wrappers
  import opened MediaTypes

  /** The array byteData: yBuffer at 0, vBuffer at ySize, uBuffer at ySize + vSize. */
  function AssembleFrame(y: Bytes, u: Bytes, v: Bytes): (frame: Bytes)
    ensures |frame| == |y| + |u| + |v|
    ensures frame[..|y|] == y
    ensures frame[|y|..|y| + |v|] == v
    ensures frame[|y| + |v|..] == u
  {
    y + v + u
  }

  /** The planes of a frame laid out by AssembleFrame, given the sizes of Y and V. */
  function SplitFrame(frame: Bytes, ySize: nat, vSize: nat): (planes: (Bytes, Bytes, Bytes))
    requires ySize + vSize <= |frame|
    ensures |planes.0| == ySize && |planes.2| == vSize && |planes.1| == |frame| - ySize - vSize
  {
    (frame[..ySize], frame[ySize + vSize..], frame[ySize..ySize + vSize])
  }

  /** Splitting an assembled frame at the plane sizes gives back Y, U and V. */
  lemma SplitAssembled(y: Bytes, u: Bytes, v: Bytes)
    ensures SplitFrame(AssembleFrame(y, u, v), |y|, |v|) == (y, u, v)
  {
  }

  /** Assembling the split planes gives back the frame. */
  lemma AssembleSplit(frame: Bytes, ySize: nat, vSize: nat)
    requires ySize + vSize <= |frame|
    ensures var p := SplitFrame(frame, ySize, vSize); AssembleFrame(p.0, p.1, p.2) == frame
  {
    var p := SplitFrame(frame, ySize, vSize);
    assert frame == frame[..ySize] + frame[ySize..ySize + vSize] + frame[ySize + vSize..];
  }

  /** Byte k of U lands at ySize + vSize + k, byte k of V at ySize + k: the chroma
      planes are swapped, not interleaved. */
  lemma ChromaPositions(y: Bytes, u: Bytes, v: Bytes)
    ensures forall k :: 0 <= k < |v| ==> AssembleFrame(y, u, v)[|y| + k] == v[k]
    ensures forall k :: 0 <= k < |u| ==> AssembleFrame(y, u, v)[|y| + |v| + k] == u[k]
  {
    var frame := AssembleFrame(y, u, v);
    forall k | 0 <= k < |v| ensures frame[|y| + k] == v[k] {
      assert frame[|y|..|y| + |v|][k] == frame[|y| + k];
    }
    forall k | 0 <= k < |u| ensures frame[|y| + |v| + k] == u[k] {
      assert frame[|y| + |v|..][k] == frame[|y| + |v| + k];
    }
  }

  /** Copying a frame into a buffer positioned at 0 and rewinding it (buffer.position(0);
      buffer.put(byteData); buffer.position(0)): overflow exactly when the frame is longer
      than the buffer; otherwise the frame occupies the front and the rest is kept. */
  function CopyFrame(b: ByteBuf, frame: Bytes): (r: Result<ByteBuf, BufferOverflow>)
    ensures r.Failure? <==> |frame| > |b.data|
    ensures r.Success? ==> |r.value.data| == |b.data| && r.value.position == 0
                           && r.value.data[..|frame|] == frame
                           && r.value.data[|frame|..] == b.data[|frame|..]
  {
    match Put(b.(position := 0), frame)
    case Failure(e) => Failure(e)
    case Success(b') =>
      PutContents(b.(position := 0), frame);
      Success(Rewind(b'))
  }
}
