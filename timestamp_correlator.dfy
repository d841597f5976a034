/** The timestamp correlator of VideoProcessor: the decoder callback appends the
    presentation time of every frame it hands to the AR engine to timestampQueue,
    and the encoder callback re-stamps every output unit that is not a codec-config
    unit with the head of that queue. Frames come back from the engine through the
    encoder's input surface without their times, so this FIFO is what carries them. */
module TimestampCorrelator {
  import opened Wrappers
  import opened MediaTypes

  /** IllegalStateException("Encountered null timestamp but end of stream not yet reached"). */
  datatype CorrelatorError = NullTimestamp

  /** The encoder callback's rule for one output unit: a unit flagged exactly
      BUFFER_FLAG_CODEC_CONFIG keeps its own time and leaves the queue alone; any other
      unit takes the queue's head as its time and removes it, and an empty queue
      (poll() returning null) is an error that removes nothing. */
  function Restamp(queue: seq<int>, info: BufferInfo): (r: Result<(BufferInfo, seq<int>), CorrelatorError>)
    ensures info.flags == BUFFER_FLAG_CODEC_CONFIG ==> r == Success((info, queue))
    ensures info.flags != BUFFER_FLAG_CODEC_CONFIG ==> (r.Failure? <==> queue == [])
    ensures info.flags != BUFFER_FLAG_CODEC_CONFIG && r.Success? ==>
      && queue != []
      && r.value.0 == BufferInfo(queue[0], info.flags)
      && [queue[0]] + r.value.1 == queue
  {
    if info.flags != BUFFER_FLAG_CODEC_CONFIG then
      if queue == [] then Failure(NullTimestamp)
      else Success((info.(presentationTimeUs := queue[0]), queue[1..]))
    else Success((info, queue))
  }

  /** What the queue sees of the pipeline: a decoded frame whose time was offered, or an
      encoder output unit (with a buffer) reaching the re-stamping rule. */
  datatype Event = FrameDecoded(ptsUs: int) | UnitEncoded(info: BufferInfo)

  predicate IsPop(e: Event) {
    e.UnitEncoded? && e.info.flags != BUFFER_FLAG_CODEC_CONFIG
  }

  /** The times offered to the queue, in order. */
  function Offered(events: seq<Event>): (ts: seq<int>)
    ensures |ts| <= |events|
  {
    if events == [] then []
    else Offered(events[..|events| - 1])
         + (match events[|events| - 1] case FrameDecoded(t) => [t] case UnitEncoded(_) => [])
  }

  /** The number of units that take a time from the queue. */
  function Pops(events: seq<Event>): (n: nat)
    ensures n <= |events|
  {
    if events == [] then 0
    else Pops(events[..|events| - 1]) + (if IsPop(events[|events| - 1]) then 1 else 0)
  }

  /** The encoder output units, as the encoder reported them. */
  function Encoded(events: seq<Event>): (infos: seq<BufferInfo>)
    ensures |infos| <= |events|
  {
    if events == [] then []
    else Encoded(events[..|events| - 1])
         + (match events[|events| - 1] case FrameDecoded(_) => [] case UnitEncoded(info) => [info])
  }

  /** The times carried by the written units that are not codec-config units. */
  function FrameStamps(written: seq<BufferInfo>): (ts: seq<int>)
    ensures |ts| <= |written|
  {
    if written == [] then []
    else FrameStamps(written[..|written| - 1])
         + (if written[|written| - 1].flags != BUFFER_FLAG_CODEC_CONFIG then [written[|written| - 1].presentationTimeUs] else [])
  }

  /** Runs the queue from `queue` over `events`: the units written (in order) and the
      queue left, or the error of the first unit that found the queue empty. */
  function Correlate(queue: seq<int>, events: seq<Event>): Result<(seq<BufferInfo>, seq<int>), CorrelatorError> {
    if events == [] then Success(([], queue))
    else
      match Correlate(queue, events[..|events| - 1])
      case Failure(e) => Failure(e)
      case Success((written, q)) =>
        match events[|events| - 1]
        case FrameDecoded(t) => Success((written, q + [t]))
        case UnitEncoded(info) =>
          match Restamp(q, info)
          case Failure(e) => Failure(e)
          case Success((out, q')) => Success((written + [out], q'))
  }

  /** FIFO correspondence: when no unit found the queue empty, the times written on the
      frame units followed by what is still queued are exactly the initial queue followed
      by every offered time, in offer order, and the queue holds as many times as were
      offered and not taken. */
  lemma {:induction false} CorrelateFifo(queue: seq<int>, events: seq<Event>)
    requires Correlate(queue, events).Success?
    ensures var (written, rest) := Correlate(queue, events).value;
      && FrameStamps(written) + rest == queue + Offered(events)
      && |rest| == |queue| + |Offered(events)| - Pops(events)
  {
    if events != [] {
      var init := events[..|events| - 1];
      CorrelateFifo(queue, init);
      var (written, q) := Correlate(queue, init).value;
      match events[|events| - 1]
      case FrameDecoded(t) =>
        assert FrameStamps(written) + (q + [t]) == (FrameStamps(written) + q) + [t];
      case UnitEncoded(info) =>
        assert Offered(events) == Offered(init);
        if info.flags != BUFFER_FLAG_CODEC_CONFIG {
          PopKeepsOrder(written, q, info);
        } else {
          assert (written + [info])[..|written|] == written;
        }
    }
  }

  /** One pop moves the queue's head onto the written unit: the order of times is kept. */
  lemma PopKeepsOrder(written: seq<BufferInfo>, q: seq<int>, info: BufferInfo)
    requires info.flags != BUFFER_FLAG_CODEC_CONFIG && q != []
    ensures FrameStamps(written + [BufferInfo(q[0], info.flags)]) + q[1..] == FrameStamps(written) + q
  {
    var w := written + [BufferInfo(q[0], info.flags)];
    assert w[..|written|] == written;
    assert FrameStamps(w) == FrameStamps(written) + [q[0]];
    calc {
      FrameStamps(w) + q[1..];
      FrameStamps(written) + ([q[0]] + q[1..]);
      { assert [q[0]] + q[1..] == q; }
      FrameStamps(written) + q;
    }
  }

  /** One unit is written per encoder output, in order, with its own flags, and a
      codec-config unit is written exactly as the encoder reported it. */
  lemma {:induction false} CorrelateWritesEachUnit(queue: seq<int>, events: seq<Event>)
    requires Correlate(queue, events).Success?
    ensures var written := Correlate(queue, events).value.0;
      && |written| == |Encoded(events)|
      && (forall k :: 0 <= k < |written| ==> written[k].flags == Encoded(events)[k].flags)
      && (forall k :: 0 <= k < |written| && written[k].flags == BUFFER_FLAG_CODEC_CONFIG ==>
            written[k] == Encoded(events)[k])
  {
    if events != [] {
      var init := events[..|events| - 1];
      CorrelateWritesEachUnit(queue, init);
    }
  }

  /** Some unit that takes a time arrives when every time offered so far (and every
      initially queued one) has already been taken. */
  predicate Starved(queue: seq<int>, events: seq<Event>) {
    exists k :: 0 <= k < |events| && IsPop(events[k]) && Pops(events[..k]) >= |queue| + |Offered(events[..k])|
  }

  /** The correlator fails exactly when it is starved: a unit that takes a time arrives
      after as many takes as there were times. No other input makes it fail. */
  lemma {:induction false} CorrelateFailsIffStarved(queue: seq<int>, events: seq<Event>)
    ensures Correlate(queue, events).Failure? <==> Starved(queue, events)
    ensures !Starved(queue, events) ==> Pops(events) <= |queue| + |Offered(events)|
  {
    if events != [] {
      var n := |events| - 1;
      var init := events[..n];
      CorrelateFailsIffStarved(queue, init);
      assert forall k :: 0 <= k < n ==> events[..k] == init[..k] && events[k] == init[k];
      if Starved(queue, init) {
        var k :| 0 <= k < |init| && IsPop(init[k]) && Pops(init[..k]) >= |queue| + |Offered(init[..k])|;
        assert IsPop(events[k]) && Pops(events[..k]) >= |queue| + |Offered(events[..k])|;
      } else {
        CorrelateFifo(queue, init);
        var (written, q) := Correlate(queue, init).value;
        if Starved(queue, events) {
          var k :| 0 <= k < |events| && IsPop(events[k]) && Pops(events[..k]) >= |queue| + |Offered(events[..k])|;
          if k < n {
            assert false;
          }
          assert k == n && events[..k] == init;
          assert q == [];
        } else {
          if IsPop(events[n]) {
            assert !(Pops(events[..n]) >= |queue| + |Offered(events[..n])|);
            assert q != [];
          }
        }
      }
    }
  }

  /** A drained job: when nothing failed and the queue ends empty, the frame units carry
      exactly the offered times, one each, in the order the frames were decoded; nothing
      is dropped and nothing is duplicated. */
  lemma DrainedJobStampsEveryFrame(events: seq<Event>)
    requires Correlate([], events).Success? && Correlate([], events).value.1 == []
    ensures FrameStamps(Correlate([], events).value.0) == Offered(events)
    ensures Pops(events) == |Offered(events)|
  {
    CorrelateFifo([], events);
    var written := Correlate([], events).value.0;
    assert FrameStamps(written) + [] == FrameStamps(written);
  }
}
