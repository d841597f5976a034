/** MediaDecoderHandlerThread: a stand-alone frame feed that decodes the first video
    track of a file by polling the decoder, copies each decoded frame (Y, V, U) into one
    of two reusable buffers in turn and hands it to the AR engine.

    readData's for(;;) loop is modelled by the answers the decoder gives to its polls:
    each Poll says whether dequeueInputBuffer(0) returned an input buffer and what
    dequeueOutputBuffer(info, 0) returned. A finite list of polls stands for the first
    iterations of the loop; when it runs out the loop is still polling (StillPolling). */
module DecoderThread {
  import opened Wrappers
  import opened MediaTypes
  import opened YuvFrame
  import opened DecoderFeed

  const NUMBER_OF_BUFFERS: nat := 2

  /** The rotation readData passes to receiveFrame for every frame. */
  const RECEIVER_ROTATION: int := 270

  const VIDEO_PREFIX: string := "video/"

  /** String.startsWith. */
  predicate StartsWith(s: string, prefix: string) {
    |prefix| <= |s| && s[..|prefix|] == prefix
  }

  /** The track setFilenameAndStart selects: the first whose MIME type starts with
      "video/" (case-sensitive), or -1 when there is none. */
  function FirstVideoTrackFrom(tracks: seq<Track>, from: nat): (i: int)
    requires from <= |tracks|
    ensures i == -1 || from <= i < |tracks|
    ensures i >= 0 ==> StartsWith(tracks[i].format.mime, VIDEO_PREFIX)
    ensures i >= 0 ==> forall j :: from <= j < i ==> !StartsWith(tracks[j].format.mime, VIDEO_PREFIX)
    ensures i == -1 <==> forall j :: from <= j < |tracks| ==> !StartsWith(tracks[j].format.mime, VIDEO_PREFIX)
    decreases |tracks| - from
  {
    if from == |tracks| then -1
    else if StartsWith(tracks[from].format.mime, VIDEO_PREFIX) then from
    else FirstVideoTrackFrom(tracks, from + 1)
  }

  datatype OutputStatus = TryAgainLater | OutputFormatChanged | OutputBuffersChanged

  function StatusCode(status: OutputStatus): (code: int)
    ensures code < 0
  {
    match status
    case TryAgainLater => INFO_TRY_AGAIN_LATER
    case OutputFormatChanged => INFO_OUTPUT_FORMAT_CHANGED
    case OutputBuffersChanged => INFO_OUTPUT_BUFFERS_CHANGED
  }

  /** What dequeueOutputBuffer returned: a buffer index with info.flags and the image
      getOutputImage gives for it (None for null), or a negative status code. */
  datatype DecoderOutput =
    | OutputBuffer(index: nat, flags: int, image: Option<Image>)
    | Status(status: OutputStatus)

  /** The decoder's answers in one iteration of readData's loop. */
  datatype Poll = Poll(inputAvailable: bool, output: DecoderOutput)

  /** An output that ends the loop: non-zero flags, or no image. */
  predicate IsStopPoll(p: Poll) {
    p.output.OutputBuffer? && (p.output.flags != 0 || p.output.image.None?)
  }

  /** One receiveFrame call: the pool slot, that buffer's bytes, the image size, the fixed
      rotation and the pixel stride of plane 1. */
  datatype Delivery = Delivery(slot: nat, data: Bytes, width: int, height: int, rotation: int, pixelStride: int)

  /** The fields readData updates: end_of_input_file, the extractor cursor, outputBufferIndex,
      currentBuffer, the buffer pool, and the records of what was fed to the decoder and
      handed to the engine. */
  datatype LoopState = LoopState(eof: bool, cursor: nat, outputIndex: int, current: nat,
                                 pool: seq<ByteBuf>, fed: seq<InputBuffer>, delivered: seq<Delivery>)

  /** How the loop left: it is still polling, it released the decoder (decoder = null),
      or put() raised BufferOverflowException. NoDecoder: readData found no decoder. */
  datatype Exit = StillPolling | DecoderReleased | Overflow | NoDecoder

  predicate LoopValid(s: LoopState) {
    |s.pool| == NUMBER_OF_BUFFERS && s.current < NUMBER_OF_BUFFERS
  }

  /** Every pool buffer has the given capacity and sits at position 0. */
  predicate PoolValid(pool: seq<ByteBuf>, capacity: nat) {
    |pool| == NUMBER_OF_BUFFERS && forall b :: b in pool ==> |b.data| == capacity && b.position == 0
  }

  /** The pool readData allocates: NUMBER_OF_BUFFERS direct buffers of `capacity` bytes at position 0. */
  function FreshPool(capacity: nat): (pool: seq<ByteBuf>)
    ensures PoolValid(pool, capacity)
  {
    seq(NUMBER_OF_BUFFERS, _ => Allocate(capacity))
  }

  /** The input half of one iteration. */
  function InputStep(samples: seq<Sample>, s: LoopState, inputAvailable: bool): (r: LoopState)
    ensures r.pool == s.pool && r.delivered == s.delivered && r.current == s.current
    ensures r.outputIndex == s.outputIndex
  {
    if !s.eof && inputAvailable then
      var (b, next, eof) := FeedOnPoll(samples, s.cursor);
      s.(eof := eof, cursor := next, fed := s.fed + [b])
    else s
  }

  /** The output half of one iteration. */
  function OutputStep(t: LoopState, output: DecoderOutput): (r: (LoopState, Exit))
    requires LoopValid(t)
    ensures LoopValid(r.0) && r.1 != NoDecoder
  {
    match output
    case Status(status) => (t.(outputIndex := StatusCode(status)), StillPolling)
    case OutputBuffer(index, flags, image) =>
      var t := t.(outputIndex := index);
      if flags != 0 then (t, DecoderReleased)
      else if image.None? then (t, DecoderReleased)
      else
        var img := image.value;
        var byteData := AssembleFrame(img.y.bytes, img.u.bytes, img.v.bytes);
        match Put(t.pool[t.current], byteData)
        case Failure(_) => (t, Overflow)
        case Success(b) =>
          var b' := Rewind(b);
          (t.(pool := t.pool[t.current := b'],
              delivered := t.delivered + [Delivery(t.current, b'.data, img.width, img.height,
                                                    RECEIVER_ROTATION, img.u.pixelStride)],
              current := (t.current + 1) % NUMBER_OF_BUFFERS),
           StillPolling)
  }

  /** One iteration of readData's loop. */
  function Step(samples: seq<Sample>, s: LoopState, p: Poll): (r: (LoopState, Exit))
    requires LoopValid(s)
    ensures LoopValid(r.0) && r.1 != NoDecoder
  {
    OutputStep(InputStep(samples, s, p.inputAvailable), p.output)
  }

  /** The loop over a list of polls, until it exits or the polls run out. */
  function Run(samples: seq<Sample>, s: LoopState, polls: seq<Poll>): (r: (LoopState, Exit))
    requires LoopValid(s)
    ensures LoopValid(r.0) && r.1 != NoDecoder
    decreases |polls|
  {
    if polls == [] then (s, StillPolling)
    else
      var (t, exit) := Step(samples, s, polls[0]);
      if exit != StillPolling then (t, exit) else Run(samples, t, polls[1..])
  }

  /** One iteration: it leaves the loop exactly on an output with non-zero flags or a null
      image (DecoderReleased) or on a frame that does not fit its buffer (Overflow); a
      frame that fits is copied Y, V, U into the current buffer, which is handed on whole,
      rewound, and currentBuffer moves to the next slot. Nothing else is delivered. */
  lemma StepOutput(samples: seq<Sample>, s: LoopState, p: Poll, capacity: nat)
    requires LoopValid(s) && PoolValid(s.pool, capacity)
    ensures var (t, exit) := Step(samples, s, p);
      && (exit == DecoderReleased <==> IsStopPoll(p))
      && (exit == Overflow <==>
            !IsStopPoll(p) && p.output.OutputBuffer?
            && |p.output.image.value.y.bytes| + |p.output.image.value.u.bytes| + |p.output.image.value.v.bytes| > capacity)
      && PoolValid(t.pool, capacity)
      && (exit == StillPolling && p.output.OutputBuffer? ==>
            var img := p.output.image.value;
            && t.delivered == s.delivered + [Delivery(s.current, t.pool[s.current].data, img.width, img.height,
                                                      RECEIVER_ROTATION, img.u.pixelStride)]
            && AssembleFrame(img.y.bytes, img.u.bytes, img.v.bytes) <= t.pool[s.current].data
            && t.current == (s.current + 1) % NUMBER_OF_BUFFERS
            && t.pool[1 - s.current] == s.pool[1 - s.current])
      && (exit != StillPolling || p.output.Status? ==>
            t.delivered == s.delivered && t.current == s.current && t.pool == s.pool)
  {
    var i := InputStep(samples, s, p.inputAvailable);
    assert Step(samples, s, p) == OutputStep(i, p.output);
    OutputStepPool(i, p.output, capacity);
  }

  /** The output half on its own, for StepOutput. */
  lemma OutputStepPool(s: LoopState, output: DecoderOutput, capacity: nat)
    requires LoopValid(s) && PoolValid(s.pool, capacity)
    ensures var (t, exit) := OutputStep(s, output);
      && (exit == DecoderReleased <==> output.OutputBuffer? && (output.flags != 0 || output.image.None?))
      && (exit == Overflow <==>
            output.OutputBuffer? && output.flags == 0 && output.image.Some?
            && |output.image.value.y.bytes| + |output.image.value.u.bytes| + |output.image.value.v.bytes| > capacity)
      && PoolValid(t.pool, capacity)
      && (exit == StillPolling && output.OutputBuffer? ==>
            var img := output.image.value;
            && t.delivered == s.delivered + [Delivery(s.current, t.pool[s.current].data, img.width, img.height,
                                                      RECEIVER_ROTATION, img.u.pixelStride)]
            && AssembleFrame(img.y.bytes, img.u.bytes, img.v.bytes) <= t.pool[s.current].data
            && t.current == (s.current + 1) % NUMBER_OF_BUFFERS
            && t.pool[1 - s.current] == s.pool[1 - s.current])
      && (exit != StillPolling || output.Status? ==>
            t.delivered == s.delivered && t.current == s.current && t.pool == s.pool)
  {
    if output.OutputBuffer? && output.flags == 0 && output.image.Some? {
      var img := output.image.value;
      var frame := AssembleFrame(img.y.bytes, img.u.bytes, img.v.bytes);
      if |frame| <= capacity {
        FrameFits(s, output.index, img, capacity);
      }
    }
  }

  /** A frame that fits: it is copied to the front of the current buffer, which stays a
      whole buffer at position 0, is handed on, and currentBuffer moves on. */
  lemma FrameFits(s: LoopState, index: nat, img: Image, capacity: nat)
    requires LoopValid(s) && PoolValid(s.pool, capacity)
    requires |AssembleFrame(img.y.bytes, img.u.bytes, img.v.bytes)| <= capacity
    ensures var (t, exit) := OutputStep(s, OutputBuffer(index, 0, Some(img)));
      && exit == StillPolling
      && PoolValid(t.pool, capacity)
      && t.delivered == s.delivered + [Delivery(s.current, t.pool[s.current].data, img.width, img.height,
                                                RECEIVER_ROTATION, img.u.pixelStride)]
      && AssembleFrame(img.y.bytes, img.u.bytes, img.v.bytes) <= t.pool[s.current].data
      && t.current == (s.current + 1) % NUMBER_OF_BUFFERS
      && t.pool[1 - s.current] == s.pool[1 - s.current]
  {
    var frame := AssembleFrame(img.y.bytes, img.u.bytes, img.v.bytes);
    var b := s.pool[s.current];
    assert b in s.pool;
    PutContents(b, frame);
    var b' := Rewind(Put(b, frame).value);
    assert b'.data[..|frame|] == frame;
    var pool := s.pool[s.current := b'];
    assert OutputStep(s, OutputBuffer(index, 0, Some(img))).0.pool == pool;
    forall c | c in pool ensures |c.data| == capacity && c.position == 0 {
      var k :| 0 <= k < |pool| && pool[k] == c;
      if k != s.current {
        assert c == s.pool[k] && c in s.pool;
      }
    }
  }

  /** One iteration keeps the feed consistent, and feeds nothing once end_of_input_file is set. */
  lemma StepFeed(samples: seq<Sample>, s: LoopState, p: Poll)
    requires LoopValid(s) && FeedConsistent(samples, s.cursor, s.eof, s.fed)
    ensures var t := Step(samples, s, p).0;
      && FeedConsistent(samples, t.cursor, t.eof, t.fed)
      && (s.eof ==> t.eof && t.cursor == s.cursor && t.fed == s.fed)
      && (s.eof || !p.inputAvailable ==> t.fed == s.fed)
      && |s.fed| <= |t.fed| <= |s.fed| + 1
  {
    if !s.eof && p.inputAvailable {
      FeedOnPollExtends(samples, s.cursor, s.fed);
    }
  }

  /** Over the whole loop: what the decoder was fed is always the samples before the
      cursor (time, flags 0) and then at most one end-of-stream buffer, after which no
      input is taken. */
  lemma {:induction false} RunFeed(samples: seq<Sample>, s: LoopState, polls: seq<Poll>)
    requires LoopValid(s) && FeedConsistent(samples, s.cursor, s.eof, s.fed)
    ensures var t := Run(samples, s, polls).0;
      && FeedConsistent(samples, t.cursor, t.eof, t.fed)
      && (s.eof ==> t.eof && t.cursor == s.cursor && t.fed == s.fed)
    decreases |polls|
  {
    if polls != [] {
      StepFeed(samples, s, polls[0]);
      var (t, exit) := Step(samples, s, polls[0]);
      if exit == StillPolling {
        RunFeed(samples, t, polls[1..]);
      }
    }
  }

  /** One iteration delivers nothing and keeps currentBuffer, or delivers one frame from
      slot currentBuffer and advances currentBuffer by one modulo NUMBER_OF_BUFFERS. */
  lemma StepRing(samples: seq<Sample>, s: LoopState, p: Poll)
    requires LoopValid(s)
    ensures var (t, exit) := Step(samples, s, p);
      || (t.delivered == s.delivered && t.current == s.current)
      || (&& exit == StillPolling
          && |t.delivered| == |s.delivered| + 1
          && t.delivered[..|s.delivered|] == s.delivered
          && t.delivered[|s.delivered|].slot == s.current
          && t.current == (s.current + 1) % NUMBER_OF_BUFFERS)
  {
    var (t, exit) := Step(samples, s, p);
    if t.delivered != s.delivered {
      assert t.delivered[..|s.delivered|] == s.delivered;
    }
  }

  /** The loop only appends to what it has delivered. */
  lemma {:induction false} RunDeliveredGrows(samples: seq<Sample>, s: LoopState, polls: seq<Poll>)
    requires LoopValid(s)
    ensures s.delivered <= Run(samples, s, polls).0.delivered
    decreases |polls|
  {
    if polls != [] {
      StepRing(samples, s, polls[0]);
      var (t, exit) := Step(samples, s, polls[0]);
      if exit == StillPolling {
        RunDeliveredGrows(samples, t, polls[1..]);
      }
    }
  }

  /** The double-buffer ring: the k-th frame handed to the engine came from slot
      k mod NUMBER_OF_BUFFERS, and currentBuffer names the slot of the next one. */
  predicate RingValid(current: nat, delivered: seq<Delivery>) {
    && current == |delivered| % NUMBER_OF_BUFFERS
    && forall k :: 0 <= k < |delivered| ==> delivered[k].slot == k % NUMBER_OF_BUFFERS
  }

  /** One iteration keeps the ring. */
  lemma StepKeepsRing(samples: seq<Sample>, s: LoopState, p: Poll)
    requires LoopValid(s) && RingValid(s.current, s.delivered)
    ensures var t := Step(samples, s, p).0; RingValid(t.current, t.delivered)
  {
    StepRing(samples, s, p);
    var t := Step(samples, s, p).0;
    if t.delivered != s.delivered {
      var n := |s.delivered|;
      forall k | 0 <= k < |t.delivered| ensures t.delivered[k].slot == k % NUMBER_OF_BUFFERS {
        if k < n {
          assert t.delivered[k] == t.delivered[..n][k];
        }
      }
    }
  }

  /** The whole loop keeps the ring, so currentBuffer always stays below NUMBER_OF_BUFFERS
      and consecutive frames alternate between the two buffers. */
  lemma {:induction false} RunKeepsRing(samples: seq<Sample>, s: LoopState, polls: seq<Poll>)
    requires LoopValid(s) && RingValid(s.current, s.delivered)
    ensures var t := Run(samples, s, polls).0; RingValid(t.current, t.delivered)
    decreases |polls|
  {
    if polls != [] {
      StepKeepsRing(samples, s, polls[0]);
      var (t, exit) := Step(samples, s, polls[0]);
      if exit == StillPolling {
        RunKeepsRing(samples, t, polls[1..]);
      }
    }
  }

  /** The buffers stay NUMBER_OF_BUFFERS of the same capacity at position 0 over the whole
      loop, and every frame delivered during it is a whole buffer with rotation 270. */
  lemma {:induction false} RunPool(samples: seq<Sample>, s: LoopState, polls: seq<Poll>, capacity: nat)
    requires LoopValid(s) && PoolValid(s.pool, capacity)
    ensures var t := Run(samples, s, polls).0;
      && PoolValid(t.pool, capacity)
      && |s.delivered| <= |t.delivered|
      && forall k :: |s.delivered| <= k < |t.delivered| ==>
           |t.delivered[k].data| == capacity && t.delivered[k].rotation == RECEIVER_ROTATION
    decreases |polls|
  {
    if polls != [] {
      StepOutput(samples, s, polls[0], capacity);
      var (t, exit) := Step(samples, s, polls[0]);
      if exit == StillPolling {
        RunPool(samples, t, polls[1..], capacity);
        RunDeliveredGrows(samples, t, polls[1..]);
        var u := Run(samples, t, polls[1..]).0;
        assert Run(samples, s, polls).0 == u;
        if polls[0].output.OutputBuffer? {
          var n := |s.delivered|;
          assert t.delivered[n].data == t.pool[s.current].data;
          assert t.pool[s.current] in t.pool;
          assert u.delivered[n] == t.delivered[n];
        }
      }
    }
  }

  /** One pass releases the decoder exactly on an output with non-zero flags or a null image. */
  lemma StepStops(samples: seq<Sample>, s: LoopState, p: Poll)
    requires LoopValid(s)
    ensures Step(samples, s, p).1 == DecoderReleased <==> IsStopPoll(p)
  {
  }

  /** The loop ends exactly at the first output with non-zero flags or a null image
      (unless a frame overflowed its buffer before it); while it is still polling it has
      met none. */
  lemma {:induction false} RunExit(samples: seq<Sample>, s: LoopState, polls: seq<Poll>)
    requires LoopValid(s)
    ensures var exit := Run(samples, s, polls).1;
      && (exit == StillPolling ==> forall k :: 0 <= k < |polls| ==> !IsStopPoll(polls[k]))
      && (exit == DecoderReleased ==>
            exists k :: 0 <= k < |polls| && IsStopPoll(polls[k]) && forall j :: 0 <= j < k ==> !IsStopPoll(polls[j]))
    decreases |polls|
  {
    if polls != [] {
      StepStops(samples, s, polls[0]);
      var (t, exit) := Step(samples, s, polls[0]);
      if exit == StillPolling {
        RunExit(samples, t, polls[1..]);
        assert forall k :: 1 <= k < |polls| ==> polls[k] == polls[1..][k - 1];
        if Run(samples, t, polls[1..]).1 == DecoderReleased {
          var k :| 0 <= k < |polls[1..]| && IsStopPoll(polls[1..][k]) && forall j :: 0 <= j < k ==> !IsStopPoll(polls[1..][j]);
          assert IsStopPoll(polls[k + 1]);
          assert forall j :: 0 <= j < k + 1 ==> !IsStopPoll(polls[j]);
        }
      } else if exit == DecoderReleased {
        assert IsStopPoll(polls[0]);
      }
    }
  }

  /** When polls[k] is the first output with non-zero flags or a null image, the loop
      has left by then: it ends exactly as it would on polls[..k + 1], so no later poll
      is processed, and it does not end still polling. */
  lemma {:induction false} RunStopsAtFirst(samples: seq<Sample>, s: LoopState, polls: seq<Poll>, k: nat)
    requires LoopValid(s) && k < |polls| && IsStopPoll(polls[k])
    requires forall j :: 0 <= j < k ==> !IsStopPoll(polls[j])
    ensures Run(samples, s, polls) == Run(samples, s, polls[..k + 1])
    ensures Run(samples, s, polls).1 != StillPolling
    decreases k
  {
    StepStops(samples, s, polls[0]);
    var (t, exit) := Step(samples, s, polls[0]);
    assert polls[..k + 1][0] == polls[0];
    if exit == StillPolling {
      assert k > 0;
      assert polls[..k + 1][1..] == polls[1..][..k];
      RunStopsAtFirst(samples, t, polls[1..], k - 1);
    }
  }

  /** How setFilenameAndStart ended: setDataSource failed, no track is video, or the
      decoder ran on the chosen track until readData left with `exit`. */
  datatype StartOutcome = NoDataSource | NoVideoTrack | Decoded(trackIndex: nat, exit: Exit)

  class MediaDecoderHandlerThread {
    /** The selected track's samples and the extractor's cursor in them. */
    var samples: seq<Sample>
    var cursor: nat
    /** decoder != null. */
    var decoderOpen: bool
    var endOfInputFile: bool
    var outputBufferIndex: int
    var width: int
    var height: int
    /** The pool; empty until readData first allocates it (buffers == null). */
    var buffers: array<ByteBuf>
    var currentBuffer: nat
    /** What the current extractor queued into the decoder. */
    var fed: seq<InputBuffer>
    /** Every receiveFrame call so far. */
    var delivered: seq<Delivery>

    predicate Valid()
      reads this, buffers
    {
      && RingValid(currentBuffer, delivered)
      && (decoderOpen ==> width >= 0 && height >= 0)
      && (buffers.Length == 0 || PoolValid(buffers[..], |buffers[0].data|))
    }

    /** The fields readData works on, once the pool exists. */
    function State(): (s: LoopState)
      reads this, buffers
      ensures s.pool == buffers[..] && s.delivered == delivered && s.current == currentBuffer
    {
      LoopState(endOfInputFile, cursor, outputBufferIndex, currentBuffer, buffers[..], fed, delivered)
    }

    /** The field initialisers: no decoder, outputBufferIndex, width and height -1, no
        buffers, currentBuffer 0. */
    constructor ()
      ensures Valid()
      ensures !decoderOpen && !endOfInputFile && outputBufferIndex == -1 && width == -1 && height == -1
      ensures buffers.Length == 0 && currentBuffer == 0 && delivered == [] && fed == []
      ensures samples == [] && cursor == 0
    {
      samples := [];
      cursor := 0;
      decoderOpen := false;
      endOfInputFile := false;
      outputBufferIndex := -1;
      width := -1;
      height := -1;
      buffers := new ByteBuf[0];
      currentBuffer := 0;
      fed := [];
      delivered := [];
    }

    /** readData: without a decoder it returns at once. Otherwise it allocates
        NUMBER_OF_BUFFERS buffers of width * height * 3 bytes and polls the decoder: the
        fields end as the loop specification Run says, starting from that fresh pool, and
        the decoder is released exactly when the loop says so. */
    method ReadData(polls: seq<Poll>) returns (exit: Exit)
      requires Valid()
      modifies this
      ensures Valid()
      ensures samples == old(samples) && width == old(width) && height == old(height)
      ensures !old(decoderOpen) ==>
        && exit == NoDecoder && decoderOpen == old(decoderOpen)
        && buffers == old(buffers) && endOfInputFile == old(endOfInputFile) && cursor == old(cursor)
        && outputBufferIndex == old(outputBufferIndex) && currentBuffer == old(currentBuffer)
        && fed == old(fed) && delivered == old(delivered)
      ensures old(decoderOpen) ==>
        && fresh(buffers) && buffers.Length == NUMBER_OF_BUFFERS
        && (State(), exit) == Run(samples, LoopState(old(endOfInputFile), old(cursor), old(outputBufferIndex),
                                                      old(currentBuffer), FreshPool(width * height * 3),
                                                      old(fed), old(delivered)), polls)
        && (decoderOpen <==> exit != DecoderReleased)
      ensures old(decoderOpen) ==>
        && PoolValid(buffers[..], width * height * 3)
        && old(|delivered|) <= |delivered|
        && (forall k :: old(|delivered|) <= k < |delivered| ==>
              |delivered[k].data| == width * height * 3 && delivered[k].rotation == RECEIVER_ROTATION)
        && (FeedConsistent(samples, old(cursor), old(endOfInputFile), old(fed)) ==>
              FeedConsistent(samples, cursor, endOfInputFile, fed))
    {
      if !decoderOpen {
        return NoDecoder;
      }
      AllocateBuffers();
      ghost var start := State();
      ghost var capacity := width * height * 3;
      RunKeepsRing(samples, start, polls);
      RunPool(samples, start, polls, capacity);
      if FeedConsistent(samples, cursor, endOfInputFile, fed) {
        RunFeed(samples, start, polls);
      }
      exit := PollLoop(polls);
      assert buffers[0] in buffers[..];
    }

    /** readData's allocation: a new array of NUMBER_OF_BUFFERS direct buffers of
        width * height * 3 bytes, each at position 0. */
    method AllocateBuffers()
      requires width >= 0 && height >= 0
      modifies this
      ensures width == old(width) && height == old(height)
      ensures fresh(buffers) && buffers[..] == FreshPool(width * height * 3)
      ensures endOfInputFile == old(endOfInputFile) && cursor == old(cursor) && outputBufferIndex == old(outputBufferIndex)
      ensures currentBuffer == old(currentBuffer) && fed == old(fed) && delivered == old(delivered)
      ensures decoderOpen == old(decoderOpen) && samples == old(samples) && width == old(width) && height == old(height)
    {
      var capacity := width * height * 3;
      var pool := new ByteBuf[NUMBER_OF_BUFFERS];
      for i := 0 to NUMBER_OF_BUFFERS
        invariant forall j :: 0 <= j < i ==> pool[j] == Allocate(capacity)
        modifies pool
      {
        pool[i] := Allocate(capacity);
      }
      buffers := pool;
    }

    /** readData's for(;;) loop over the decoder's answers: it leaves on the first pass
        that does not end StillPolling, and it ends as Run says. */
    method PollLoop(polls: seq<Poll>) returns (exit: Exit)
      requires buffers.Length == NUMBER_OF_BUFFERS && currentBuffer < NUMBER_OF_BUFFERS && decoderOpen
      modifies this, buffers
      ensures (State(), exit) == Run(samples, old(State()), polls)
      ensures decoderOpen <==> exit != DecoderReleased
      ensures buffers == old(buffers) && samples == old(samples) && width == old(width) && height == old(height)
    {
      ghost var start := State();
      var i := 0;
      exit := StillPolling;
      while i < |polls|
        invariant 0 <= i <= |polls|
        invariant buffers == old(buffers) && decoderOpen && exit == StillPolling
        invariant samples == old(samples) && width == old(width) && height == old(height)
        invariant currentBuffer < NUMBER_OF_BUFFERS
        invariant Run(samples, State(), polls[i..]) == Run(samples, start, polls)
      {
        ghost var before := State();
        assert polls[i..][0] == polls[i] && polls[i..][1..] == polls[i + 1..];
        exit := Iterate(polls[i]);
        if exit != StillPolling {
          assert Run(samples, before, polls[i..]) == (State(), exit);
          return;
        }
        i := i + 1;
      }
      assert polls[i..] == [];
    }

    /** One pass of readData's for(;;) loop: the input half, then the output half. It
        does what Step says. */
    method Iterate(p: Poll) returns (exit: Exit)
      requires buffers.Length == NUMBER_OF_BUFFERS && currentBuffer < NUMBER_OF_BUFFERS && decoderOpen
      modifies this, buffers
      ensures (State(), exit) == Step(samples, old(State()), p)
      ensures decoderOpen <==> exit != DecoderReleased
      ensures buffers == old(buffers) && samples == old(samples) && width == old(width) && height == old(height)
    {
      FeedInput(p.inputAvailable);
      exit := HandleOutput(p.output);
    }

    /** The input half: while end_of_input_file is unset and an input buffer is free, the
        sample under the cursor is queued with its time and flags 0 and the extractor
        advances, or, past the last sample, the zero-length end-of-stream buffer is queued
        and end_of_input_file is set. */
    method FeedInput(inputAvailable: bool)
      modifies this
      ensures State() == InputStep(samples, old(State()), inputAvailable)
      ensures decoderOpen == old(decoderOpen) && currentBuffer == old(currentBuffer)
      ensures buffers == old(buffers) && samples == old(samples) && width == old(width) && height == old(height)
    {
      if !endOfInputFile && inputAvailable {
        var size := ReadSampleData(samples, cursor);
        if size < 0 {
          fed := fed + [EndOfStreamBuffer()];
          endOfInputFile := true;
        } else {
          fed := fed + [InputBuffer(samples[cursor].data, samples[cursor].timeUs, 0)];
          cursor := cursor + 1;
        }
      }
    }

    /** The output half: a status code is only stored in outputBufferIndex; an output with
        non-zero flags or no image releases the decoder; otherwise the frame is copied
        Y, V, U into buffers[currentBuffer] (or put() overflows), which is rewound and
        handed on, and currentBuffer moves to the next slot. */
    method HandleOutput(output: DecoderOutput) returns (exit: Exit)
      requires buffers.Length == NUMBER_OF_BUFFERS && currentBuffer < NUMBER_OF_BUFFERS && decoderOpen
      modifies this, buffers
      ensures (State(), exit) == OutputStep(old(State()), output)
      ensures decoderOpen <==> exit != DecoderReleased
      ensures buffers == old(buffers) && samples == old(samples) && width == old(width) && height == old(height)
    {
      match output {
        case Status(status) =>
          outputBufferIndex := StatusCode(status);
        case OutputBuffer(index, flags, image) =>
          outputBufferIndex := index;
          if flags != 0 || image.None? {
            decoderOpen := false;
            return DecoderReleased;
          }
          var img := image.value;
          var byteData := AssembleFrame(img.y.bytes, img.u.bytes, img.v.bytes);
          var put := Put(buffers[currentBuffer], byteData);
          if put.Failure? {
            return Overflow;
          }
          buffers[currentBuffer] := Rewind(put.value);
          delivered := delivered + [Delivery(currentBuffer, buffers[currentBuffer].data, img.width, img.height,
                                             RECEIVER_ROTATION, img.u.pixelStride)];
          currentBuffer := (currentBuffer + 1) % NUMBER_OF_BUFFERS;
      }
      return StillPolling;
    }

    /** setFilenameAndStart: a new extractor (nothing queued from it yet, end_of_input_file
        cleared); when the file opens, the first track whose MIME type starts with
        "video/" is selected, width and height are taken from it, a decoder is started
        and readData runs. With no such track nothing is decoded. An exception out of
        readData (Overflow) is caught and end_of_input_file is cleared again; when the
        loop released the decoder the method returns before that. */
    method SetFilenameAndStart(file: Option<seq<Track>>, polls: seq<Poll>) returns (outcome: StartOutcome)
      requires Valid()
      modifies this
      ensures Valid()
      ensures file.None? ==> outcome == NoDataSource
      ensures file.Some? ==>
        && (outcome == NoVideoTrack <==> FirstVideoTrackFrom(file.value, 0) == -1)
        && (outcome.Decoded? <==> FirstVideoTrackFrom(file.value, 0) >= 0)
      ensures !outcome.Decoded? ==>
        && samples == [] && cursor == 0 && fed == [] && !endOfInputFile
        && decoderOpen == old(decoderOpen) && buffers == old(buffers) && delivered == old(delivered)
        && currentBuffer == old(currentBuffer) && width == old(width) && height == old(height)
        && outputBufferIndex == old(outputBufferIndex)
      ensures outcome.Decoded? ==>
        && file.Some? && outcome.trackIndex == FirstVideoTrackFrom(file.value, 0)
        && var track := file.value[outcome.trackIndex];
        && StartsWith(track.format.mime, VIDEO_PREFIX)
        && samples == track.samples && width == track.format.width && height == track.format.height
        && fresh(buffers)
        && var (t, exit) := Run(samples, LoopState(false, 0, old(outputBufferIndex), old(currentBuffer),
                                                   FreshPool(width * height * 3), [], old(delivered)), polls);
        && outcome.exit == exit
        && cursor == t.cursor && fed == t.fed && outputBufferIndex == t.outputIndex
        && currentBuffer == t.current && buffers[..] == t.pool && delivered == t.delivered
        && endOfInputFile == (t.eof && exit != Overflow)
        && (decoderOpen <==> exit != DecoderReleased)
      ensures outcome.Decoded? && outcome.exit != Overflow ==> FeedConsistent(samples, cursor, endOfInputFile, fed)
    {
      samples := [];
      cursor := 0;
      fed := [];
      endOfInputFile := false;
      if file.None? {
        return NoDataSource;
      }
      var tracks := file.value;
      var i := SelectVideoTrack(tracks);
      if i < 0 {
        return NoVideoTrack;
      }
      var exit := DecodeTrack(tracks[i], polls);
      outcome := Decoded(i, exit);
    }

    /** The body of the track loop once a video track is found, and what follows the loop:
        width and height from the track, the track selected, a decoder started and
        readData run; an overflow out of readData is caught and end_of_input_file cleared. */
    method DecodeTrack(track: Track, polls: seq<Poll>) returns (exit: Exit)
      requires Valid() && cursor == 0 && fed == [] && !endOfInputFile
      modifies this
      ensures Valid()
      ensures samples == track.samples && width == track.format.width && height == track.format.height
      ensures fresh(buffers)
      ensures var (t, e) := Run(samples, LoopState(false, 0, old(outputBufferIndex), old(currentBuffer),
                                                   FreshPool(width * height * 3), [], old(delivered)), polls);
        && exit == e
        && cursor == t.cursor && fed == t.fed && outputBufferIndex == t.outputIndex
        && currentBuffer == t.current && buffers[..] == t.pool && delivered == t.delivered
        && endOfInputFile == (t.eof && exit != Overflow)
        && (decoderOpen <==> exit != DecoderReleased)
      ensures exit != Overflow ==> FeedConsistent(samples, cursor, endOfInputFile, fed)
    {
      width := track.format.width;
      height := track.format.height;
      samples := track.samples;
      decoderOpen := true;
      assert FeedConsistent(samples, cursor, endOfInputFile, fed);
      exit := ReadData(polls);
      if exit == Overflow {
        endOfInputFile := false;
      }
    }

    /** The track loop of setFilenameAndStart: the index of the first track whose MIME
        type starts with "video/", or -1 when the loop runs through. */
    static method SelectVideoTrack(tracks: seq<Track>) returns (i: int)
      ensures i == FirstVideoTrackFrom(tracks, 0)
    {
      i := 0;
      while i < |tracks|
        invariant 0 <= i <= |tracks|
        invariant FirstVideoTrackFrom(tracks, 0) == FirstVideoTrackFrom(tracks, i)
      {
        if StartsWith(tracks[i].format.mime, VIDEO_PREFIX) {
          return;
        }
        i := i + 1;
      }
      i := -1;
    }
  }
}
