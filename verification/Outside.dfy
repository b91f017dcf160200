/** What the frame pipeline calls outside itself: the encoder, through the stream API, and the callbacks of
    the consumers. Only the calls themselves write the trace. */
module Outside {
  import opened Common
  import opened FrameScanner

  /** `frame_info_t`. */
  datatype FrameInfo = FrameInfo(
    data: seq<byte>, channel: nat, frameType: FrameType, tvSec: nat, tvUsec: nat,
    sequence: nat, isKeyframe: bool)

  /** `Released` is a release of a stream that was held, `ReleasedNothing` one that had nothing to release. */
  datatype Event =
    | Got(channel: nat)
    | Delivered(consumer: nat, frame: FrameInfo)
    | Released(channel: nat)
    | ReleasedNothing(channel: nat)

  class World {
    ghost var trace: seq<Event>

    constructor ()
      ensures trace == []
    {
      trace := [];
    }

    /** A successful `IMP_Encoder_GetStream`. */
    method GetStream(channel: nat)
      modifies this
      ensures trace == old(trace) + [Got(channel)]
    {
      trace := trace + [Got(channel)];
    }

    /** The end of a call of `hal_stream_release`; a held stream has gone through
        `IMP_Encoder_ReleaseStream`. */
    method ReleaseStream(channel: nat, held: bool)
      modifies this
      ensures trace == old(trace) + [if held then Released(channel) else ReleasedNothing(channel)]
    {
      trace := trace + [if held then Released(channel) else ReleasedNothing(channel)];
    }

    /** The callback of a consumer. */
    method Callback(consumer: nat, frame: FrameInfo)
      modifies this
      ensures trace == old(trace) + [Delivered(consumer, frame)]
    {
      trace := trace + [Delivered(consumer, frame)];
    }
  }
}
