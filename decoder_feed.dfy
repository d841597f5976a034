/** How the decoder's input is fed from the extractor. The extractor is the
    selected track's samples with a read cursor: readSampleData returns the size
    of the sample under the cursor, or -1 once the cursor is past the last one,
    and advance() moves the cursor on and reports whether a sample remains. */
module DecoderFeed {
  import opened MediaTypes

  /** MediaExtractor.readSampleData: the current sample's size, negative at the end. */
  function ReadSampleData(samples: seq<Sample>, cursor: nat): int {
    if cursor < |samples| then |samples[cursor].data| else -1
  }

  /** MediaExtractor.advance(): the new cursor, and false when no sample remains. */
  function Advance(samples: seq<Sample>, cursor: nat): (bool, nat) {
    (cursor + 1 < |samples|, cursor + 1)
  }

  /** VideoProcessor's onInputBufferAvailable: a negative size queues the zero-length
      end-of-stream buffer and leaves the cursor; otherwise the sample is queued with its
      time, flagged end-of-stream exactly when advance() reports that none remains. */
  function FeedOnCallback(samples: seq<Sample>, cursor: nat): (r: (InputBuffer, nat))
    ensures cursor >= |samples| ==> r == (EndOfStreamBuffer(), cursor)
    ensures cursor < |samples| ==>
      && r.0.data == samples[cursor].data && r.0.timeUs == samples[cursor].timeUs
      && r.1 == cursor + 1
      && (r.0.flags == BUFFER_FLAG_END_OF_STREAM <==> cursor + 1 == |samples|)
      && (r.0.flags == 0 <==> cursor + 1 < |samples|)
  {
    var size := ReadSampleData(samples, cursor);
    if size < 0 then (EndOfStreamBuffer(), cursor)
    else
      var presentationTime := samples[cursor].timeUs;
      var (more, next) := Advance(samples, cursor);
      (InputBuffer(samples[cursor].data[..size], presentationTime,
                   if !more then BUFFER_FLAG_END_OF_STREAM else 0), next)
  }

  /** The buffers queued by n successive input callbacks, starting at `cursor`. */
  function FeedCallbacks(samples: seq<Sample>, cursor: nat, n: nat): (queued: seq<InputBuffer>)
    ensures |queued| == n
    decreases n
  {
    if n == 0 then []
    else
      var (b, next) := FeedOnCallback(samples, cursor);
      [b] + FeedCallbacks(samples, next, n - 1)
  }

  /** `queued` holds the samples from `cursor` on, in order, each with its own time,
      flagged end-of-stream exactly on the last sample and 0 otherwise. */
  predicate QueuesSamplesFrom(samples: seq<Sample>, cursor: nat, queued: seq<InputBuffer>) {
    cursor + |queued| == |samples| &&
    forall k :: 0 <= k < |queued| ==>
      && queued[k].data == samples[cursor + k].data
      && queued[k].timeUs == samples[cursor + k].timeUs
      && queued[k].flags == (if cursor + k + 1 == |samples| then BUFFER_FLAG_END_OF_STREAM else 0)
  }

  /** Over one input callback per sample the decoder receives every sample once, in
      order, with its own time; only the last carries the end-of-stream flag. */
  lemma {:induction false} FeedCallbacksDeliversAll(samples: seq<Sample>, cursor: nat)
    requires cursor <= |samples|
    ensures QueuesSamplesFrom(samples, cursor, FeedCallbacks(samples, cursor, |samples| - cursor))
    decreases |samples| - cursor
  {
    if cursor < |samples| {
      var q := FeedCallbacks(samples, cursor, |samples| - cursor);
      var rest := FeedCallbacks(samples, cursor + 1, |samples| - (cursor + 1));
      FeedCallbacksDeliversAll(samples, cursor + 1);
      assert q == [FeedOnCallback(samples, cursor).0] + rest;
      forall k | 1 <= k < |q|
        ensures q[k].data == samples[cursor + k].data && q[k].timeUs == samples[cursor + k].timeUs
        ensures q[k].flags == (if cursor + k + 1 == |samples| then BUFFER_FLAG_END_OF_STREAM else 0)
      {
        assert q[k] == rest[k - 1];
        assert cursor + 1 + (k - 1) == cursor + k;
      }
    }
  }

  /** Once the samples are used up every further callback queues the zero-length
      end-of-stream buffer again: this callback has no once-only guard. */
  lemma {:induction false} FeedCallbacksAfterEnd(samples: seq<Sample>, cursor: nat, n: nat)
    requires cursor >= |samples|
    ensures forall k :: 0 <= k < n ==> FeedCallbacks(samples, cursor, n)[k] == EndOfStreamBuffer()
    decreases n
  {
    if n > 0 {
      FeedCallbacksAfterEnd(samples, cursor, n - 1);
    }
  }

  /** MediaDecoderHandlerThread's input step (when end_of_input_file is false and an input
      buffer was dequeued): a negative size queues the zero-length end-of-stream buffer and
      sets end_of_input_file; otherwise the sample is queued with its time and flags 0 and
      the extractor advances by one. The result is (buffer, cursor, end_of_input_file). */
  function FeedOnPoll(samples: seq<Sample>, cursor: nat): (r: (InputBuffer, nat, bool))
    ensures cursor >= |samples| ==> r == (EndOfStreamBuffer(), cursor, true)
    ensures cursor < |samples| ==> r == (InputBuffer(samples[cursor].data, samples[cursor].timeUs, 0), cursor + 1, false)
  {
    var size := ReadSampleData(samples, cursor);
    if size < 0 then (EndOfStreamBuffer(), cursor, true)
    else
      assert samples[cursor].data[..size] == samples[cursor].data;
      (InputBuffer(samples[cursor].data[..size], samples[cursor].timeUs, 0), Advance(samples, cursor).1, false)
  }

  /** What the polling decoder has been fed when the cursor is at `cursor`: each sample
      before the cursor with its time and flags 0, then the end-of-stream buffer if it was sent. */
  function FedSoFar(samples: seq<Sample>, cursor: nat, eof: bool): (fed: seq<InputBuffer>)
    requires cursor <= |samples|
    ensures |fed| == cursor + (if eof then 1 else 0)
    decreases cursor, eof
  {
    if eof then FedSoFar(samples, cursor, false) + [EndOfStreamBuffer()]
    else if cursor == 0 then []
    else FedSoFar(samples, cursor - 1, false) + [InputBuffer(samples[cursor - 1].data, samples[cursor - 1].timeUs, 0)]
  }

  /** Invariant of the polling feed: what was fed is always the samples before the cursor
      followed, once the samples are used up, by exactly one end-of-stream buffer. */
  predicate FeedConsistent(samples: seq<Sample>, cursor: nat, eof: bool, fed: seq<InputBuffer>) {
    cursor <= |samples| && (eof ==> cursor == |samples|) && fed == FedSoFar(samples, cursor, eof)
  }

  /** One polling input step keeps the feed consistent. */
  lemma FeedOnPollExtends(samples: seq<Sample>, cursor: nat, fed: seq<InputBuffer>)
    requires FeedConsistent(samples, cursor, false, fed)
    ensures var (b, next, eof) := FeedOnPoll(samples, cursor);
      FeedConsistent(samples, next, eof, fed + [b])
  {
  }

  /** The fed buffers in full: every sample before the cursor, at its own index, with
      flags 0, and the end-of-stream buffer last when it has been sent. */
  lemma {:induction false} FedSoFarContents(samples: seq<Sample>, cursor: nat, eof: bool)
    requires cursor <= |samples|
    ensures var fed := FedSoFar(samples, cursor, eof);
      && (forall k :: 0 <= k < cursor ==> fed[k] == InputBuffer(samples[k].data, samples[k].timeUs, 0))
      && (eof ==> fed[cursor] == EndOfStreamBuffer())
    decreases cursor, eof
  {
    if eof {
      FedSoFarContents(samples, cursor, false);
    } else if cursor > 0 {
      FedSoFarContents(samples, cursor - 1, false);
    }
  }
}
