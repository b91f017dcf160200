/** Frame distribution of src/frame_manager.c: consumers, the grow-only channel buffers, and the path
    of one frame from the encoder through `process_frame_from_encoder`. */
module FrameManager {
  import opened AnnexB
  import opened Common
  import opened FrameScanner
  import opened HalStream
  import opened Outside

  const FS_CHN_NUM: nat := 4
  const MAX_FRAME_CONSUMERS: nat := 8

  /** `1 << channel` has a meaning below this. */
  const INT_BITS: nat := 32

  /** `frame_consumer_t`; the callback is represented by the consumer's id. */
  datatype Consumer = Consumer(name: string, channelMask: uint32, active: bool)

  // ---- Distribution ----

  /** The consumer is active and its mask selects the channel. */
  predicate Wants(c: Consumer, channel: nat)
    requires channel < INT_BITS
  {
    c.active && HasBit(c.channelMask, channel)
  }

  function CountWanting(cs: seq<Consumer>, n: nat, channel: nat): nat
    requires n <= |cs| && channel < INT_BITS
  {
    if n == 0 then 0 else CountWanting(cs, n - 1, channel) + if Wants(cs[n - 1], channel) then 1 else 0
  }

  /** The callbacks made for one frame by the first `n` consumers. */
  function Deliveries(cs: seq<Consumer>, n: nat, frame: FrameInfo): seq<Event>
    requires n <= |cs| && frame.channel < FS_CHN_NUM
  {
    if n == 0 then []
    else
      Deliveries(cs, n - 1, frame) + if Wants(cs[n - 1], frame.channel) then [Delivered(n - 1, frame)] else []
  }

  /** Every active consumer whose mask has the bit of the channel is called with this frame exactly once,
      no one else is, calls are in id order, and their number is what `frame_manager_get_consumer_count`
      reports. */
  lemma {:induction false} DeliveriesExact(cs: seq<Consumer>, n: nat, frame: FrameInfo)
    requires n <= |cs| && frame.channel < FS_CHN_NUM
    ensures |Deliveries(cs, n, frame)| == CountWanting(cs, n, frame.channel)
    ensures forall e :: e in Deliveries(cs, n, frame) ==> e.Delivered? && e.frame == frame && e.consumer < n
    ensures forall i :: 0 <= i < n ==>
              (Delivered(i, frame) in Deliveries(cs, n, frame) <==>
                 cs[i].active && HasBit(cs[i].channelMask, frame.channel))
    ensures var ds := Deliveries(cs, n, frame);
            forall i, j :: 0 <= i < j < |ds| ==>
              ds[i].Delivered? && ds[j].Delivered? && ds[i].consumer < ds[j].consumer
  {
    hide HasBit;
    if n > 0 {
      DeliveriesExact(cs, n - 1, frame);
      var ds := Deliveries(cs, n - 1, frame);
      assert forall i :: 0 <= i < |ds| ==> ds[i] in ds;
    }
  }

  /** The positions of the consumers that listen to a channel. */
  function Listening(cs: seq<Consumer>, n: nat, channel: nat): set<int>
    requires n <= |cs|
  {
    set i | 0 <= i < n && cs[i].active && HasBit(cs[i].channelMask, channel)
  }

  /** The number reported is that of the active consumers whose mask has the bit of the channel. */
  lemma {:induction false} CountExact(cs: seq<Consumer>, n: nat, channel: nat)
    requires n <= |cs| && channel < INT_BITS
    ensures CountWanting(cs, n, channel) == |Listening(cs, n, channel)|
    ensures (forall i :: 0 <= i < n ==> !cs[i].active) ==> CountWanting(cs, n, channel) == 0
  {
    hide HasBit;
    if n > 0 {
      CountExact(cs, n - 1, channel);
      var before := Listening(cs, n - 1, channel);
      assert Listening(cs, n, channel) == if Wants(cs[n - 1], channel) then before + {n - 1} else before;
    }
  }

  // ---- Pairing of get and release ----

  /** Who holds a stream after a trace. */
  datatype Hold = Free | Held(channel: nat) | Broken

  function HoldAfter(trace: seq<Event>): Hold {
    if trace == [] then Free
    else
      var h, e := HoldAfter(trace[..|trace| - 1]), trace[|trace| - 1];
      if h.Free? && e.Got? then Held(e.channel)
      else if h.Held? && e.Delivered? && e.frame.channel == h.channel then h
      else if h.Held? && e.Released? && e.channel == h.channel then Free
      else Broken
  }

  function CountEvent(trace: seq<Event>, e: Event): nat {
    multiset(trace)[e]
  }

  /** In a balanced trace each fetched stream has been released exactly once. */
  lemma {:induction false} BalancedCounts(trace: seq<Event>, c: nat)
    requires !HoldAfter(trace).Broken?
    ensures CountEvent(trace, Got(c)) == CountEvent(trace, Released(c)) + if HoldAfter(trace) == Held(c) then 1 else 0
  {
    if trace != [] {
      var init, e := trace[..|trace| - 1], trace[|trace| - 1];
      assert trace == init + [e];
      BalancedCounts(init, c);
    }
  }

  lemma {:induction false} HoldStep(trace: seq<Event>, e: Event)
    ensures HoldAfter(trace + [e]) ==
            var h := HoldAfter(trace);
            if h.Free? && e.Got? then Held(e.channel)
            else if h.Held? && e.Delivered? && e.frame.channel == h.channel then h
            else if h.Held? && e.Released? && e.channel == h.channel then Free
            else Broken
  {
    assert (trace + [e])[..|trace|] == trace;
  }

  /** Delivering a frame keeps the stream it came from. */
  lemma {:induction false} HoldWhileDelivering(trace: seq<Event>, cs: seq<Consumer>, n: nat, frame: FrameInfo)
    requires n <= |cs| && frame.channel < FS_CHN_NUM
    requires HoldAfter(trace) == Held(frame.channel)
    ensures HoldAfter(trace + Deliveries(cs, n, frame)) == Held(frame.channel)
  {
    if n == 0 {
      assert trace + [] == trace;
    } else {
      HoldWhileDelivering(trace, cs, n - 1, frame);
      var ds := Deliveries(cs, n - 1, frame);
      if Wants(cs[n - 1], frame.channel) {
        assert trace + (ds + [Delivered(n - 1, frame)]) == (trace + ds) + [Delivered(n - 1, frame)];
        HoldStep(trace + ds, Delivered(n - 1, frame));
      } else {
        assert ds + [] == ds;
      }
    }
  }

  /** What a successful pass over channel `channel` adds to the trace. */
  function FrameEvents(cs: seq<Consumer>, frame: FrameInfo): seq<Event>
    requires frame.channel < FS_CHN_NUM
  {
    [Got(frame.channel)] + Deliveries(cs, |cs|, frame) + [Released(frame.channel)]
  }

  lemma {:induction false} FrameEventsBalanced(trace: seq<Event>, cs: seq<Consumer>, frame: FrameInfo)
    requires HoldAfter(trace) == Free && frame.channel < FS_CHN_NUM
    ensures HoldAfter(trace + FrameEvents(cs, frame)) == Free
    ensures trace + [Got(frame.channel)] + Deliveries(cs, |cs|, frame) + [Released(frame.channel)]
         == trace + FrameEvents(cs, frame)
  {
    hide HoldAfter, Deliveries;
    var ds, g, r := Deliveries(cs, |cs|, frame), Got(frame.channel), Released(frame.channel);
    HoldStep(trace, g);
    HoldWhileDelivering(trace + [g], cs, |cs|, frame);
    HoldStep(trace + [g] + ds, r);
    assert trace + FrameEvents(cs, frame) == trace + [g] + ds + [r];
  }

  lemma {:induction false} DroppedFrameBalanced(trace: seq<Event>, channel: nat)
    requires HoldAfter(trace) == Free
    ensures HoldAfter(trace + [Got(channel), Released(channel)]) == Free
    ensures trace + [Got(channel)] + [Released(channel)] == trace + [Got(channel), Released(channel)]
  {
    HoldStep(trace, Got(channel));
    HoldStep(trace + [Got(channel)], Released(channel));
    assert trace + [Got(channel), Released(channel)] == trace + [Got(channel)] + [Released(channel)];
  }

  // ---- One frame ----

  /** The frame that the packs of `st` make up. */
  function FrameOf(st: EncoderStream, channel: nat, sequence: nat): FrameInfo
    requires PacksFit(st)
  {
    var data := Assembled(st, |st.packs|);
    var ts := if st.packs == [] then 0 else st.packs[0].timestampUs;
    var frameType := Detect(data, 0);
    FrameInfo(data, channel, frameType, ts / 1000000, ts % 1000000, sequence, frameType == H264Idr)
  }

  /** The record of a frame: its bytes, the time of its first pack in seconds and microseconds, and its
      type. */
  lemma {:induction false} FrameFields(st: EncoderStream, channel: nat, sequence: nat)
    requires PacksFit(st)
    ensures var frame := FrameOf(st, channel, sequence);
            && frame.data == Assembled(st, |st.packs|)
            && frame.channel == channel && frame.sequence == sequence
            && frame.tvUsec < 1_000_000
            && frame.tvSec * 1_000_000 + frame.tvUsec == (if st.packs == [] then 0 else st.packs[0].timestampUs)
            && (frame.isKeyframe <==> frame.frameType == H264Idr)
            && frame.frameType == Detect(frame.data, 0)
  {
    hide Detect, Assembled;
  }

  /** The frame size fits in the `uint32_t` that sums it up. */
  lemma {:induction false} TotalLengthMonotone(packs: seq<Pack>, i: nat)
    requires i <= |packs|
    ensures TotalLength(packs[..i]) <= TotalLength(packs)
    decreases |packs|
  {
    if i == |packs| {
      assert packs[..i] == packs;
    } else {
      assert packs[..|packs| - 1][..i] == packs[..i];
      TotalLengthMonotone(packs[..|packs| - 1], i);
    }
  }

  lemma {:induction false} NothingAssembled(st: EncoderStream)
    requires PacksFit(st)
    ensures Assembled(st, 0) == [] && TotalLength(st.packs[..0]) == 0
  {
  }

  lemma {:induction false} OneMorePack(st: EncoderStream, i: nat)
    requires PacksFit(st) && i < |st.packs|
    ensures Assembled(st, i + 1) == Assembled(st, i) + Gather(st.ring, st.packs[i].offset, st.packs[i].length)
    ensures TotalLength(st.packs[..i + 1]) == TotalLength(st.packs[..i]) + st.packs[i].length
    ensures |Gather(st.ring, st.packs[i].offset, st.packs[i].length)| == st.packs[i].length
  {
    assert st.packs[..i + 1][..i] == st.packs[..i];
  }

  // ---- The state as a value ----

  /** The state of frame_manager.c apart from the channel buffers, and the calls made so far. */
  datatype Snapshot = Snapshot(
    consumers: seq<Consumer>,
    params: seq<StreamParams>,
    sequence: seq<nat>,
    totalFrames: nat,
    framesPerChannel: seq<nat>,
    trace: seq<Event>)

  ghost predicate Shaped(s: Snapshot) {
    && |s.consumers| <= MAX_FRAME_CONSUMERS
    && |s.params| == |s.sequence| == |s.framesPerChannel| == FS_CHN_NUM
  }

  ghost predicate ParamsSound(params: seq<StreamParams>) {
    forall c :: 0 <= c < |params| ==> Consistent(params[c])
  }

  /** Every processed frame is counted once, and sequence numbers are the counts in 32 bits. */
  ghost predicate CountsSound(sequence: seq<nat>, framesPerChannel: seq<nat>, totalFrames: nat)
    requires |sequence| == |framesPerChannel| == FS_CHN_NUM
  {
    && (forall c :: 0 <= c < FS_CHN_NUM ==> sequence[c] == framesPerChannel[c] % UINT32_LIMIT)
    && totalFrames == framesPerChannel[0] + framesPerChannel[1] + framesPerChannel[2] + framesPerChannel[3]
  }

  /** Parameters are latched consistently, counters agree, and no stream is held. */
  ghost predicate Sound(s: Snapshot) {
    && Shaped(s)
    && ParamsSound(s.params)
    && CountsSound(s.sequence, s.framesPerChannel, s.totalFrames)
    && HoldAfter(s.trace) == Free
  }

  /** Bookkeeping of one frame between fetching and releasing its stream. */
  function Published(s: Snapshot, frame: FrameInfo, alloc: Allocator): Snapshot
    requires |s.params| == |s.sequence| == |s.framesPerChannel| == FS_CHN_NUM && frame.channel < FS_CHN_NUM
  {
    var c := frame.channel;
    s.(params := s.params[c := Extract(s.params[c], frame.data, alloc)],
       sequence := s.sequence[c := frame.sequence],
       totalFrames := s.totalFrames + 1,
       framesPerChannel := s.framesPerChannel[c := s.framesPerChannel[c] + 1],
       trace := s.trace + Deliveries(s.consumers, |s.consumers|, frame))
  }

  function Logged(s: Snapshot, e: Event): Snapshot {
    s.(trace := s.trace + [e])
  }

  /** The state after one pass over a channel that fetched `st`; without room for it, the stream
      is released and nothing else happens. */
  function AfterStream(s: Snapshot, st: EncoderStream, channel: nat, room: bool, alloc: Allocator): Snapshot
    requires |s.params| == |s.sequence| == |s.framesPerChannel| == FS_CHN_NUM && channel < FS_CHN_NUM
    requires PacksFit(st)
  {
    var held := Logged(s, Got(channel));
    var done :=
      if room then Published(held, FrameOf(st, channel, (s.sequence[channel] + 1) % UINT32_LIMIT), alloc) else held;
    Logged(done, Released(channel))
  }

  /** The scanner's loop bound makes sense: the frame has four bytes, or the scanner has nothing to do. */
  predicate LongEnough(s: Snapshot, st: EncoderStream, channel: nat)
    requires channel < |s.params|
  {
    TotalLength(st.packs) >= 4 || s.params[channel].available
  }

  lemma {:induction false} WholeLength(st: EncoderStream)
    requires PacksFit(st)
    ensures |Assembled(st, |st.packs|)| == TotalLength(st.packs)
  {
    AssembledLength(st, |st.packs|);
    assert st.packs[..|st.packs|] == st.packs;
  }

  /** Every pass keeps the state sound and never replaces a stored parameter set; with room, the
      consumers have been called with the frame, between fetching and releasing its stream. */
  lemma {:induction false} AfterStreamSound(s: Snapshot, st: EncoderStream, channel: nat, room: bool, alloc: Allocator)
    requires Sound(s) && channel < FS_CHN_NUM && PacksFit(st)
    requires room ==> LongEnough(s, st, channel)
    ensures var after := AfterStream(s, st, channel, room, alloc);
            && Sound(after)
            && (forall c :: 0 <= c < FS_CHN_NUM ==> Keeps(s.params[c], after.params[c]))
            && (forall c :: 0 <= c < FS_CHN_NUM && c != channel ==>
                  after.params[c] == s.params[c] && after.sequence[c] == s.sequence[c]
                  && after.framesPerChannel[c] == s.framesPerChannel[c])
            && after.framesPerChannel[channel] == s.framesPerChannel[channel] + (if room then 1 else 0)
            && after.consumers == s.consumers
            && (room ==> after.params[channel] == Extract(s.params[channel], Assembled(st, |st.packs|), alloc))
            && after.trace == s.trace +
                 if room then FrameEvents(s.consumers, FrameOf(st, channel, after.sequence[channel]))
                 else [Got(channel), Released(channel)]
  {
    hide Extract, Detect, Assembled, Deliveries, HoldAfter, FrameEvents;
    if room {
      WholeLength(st);
      var frame := FrameOf(st, channel, (s.sequence[channel] + 1) % UINT32_LIMIT);
      ExtractLatches(s.params[channel], frame.data, alloc);
      FrameEventsBalanced(s.trace, s.consumers, frame);
      CountsUp(s.framesPerChannel[channel]);
    } else {
      DroppedFrameBalanced(s.trace, channel);
    }
  }

  lemma {:induction false} CountsUp(n: nat)
    ensures (n + 1) % UINT32_LIMIT == (n % UINT32_LIMIT + 1) % UINT32_LIMIT
  {
  }

  /** Extraction keeps the parameters of a channel consistent and never replaces what is stored. */
  lemma {:induction false} ExtractLatches(p: StreamParams, d: seq<byte>, alloc: Allocator)
    requires Consistent(p) && (|d| >= 4 || p.available)
    ensures Consistent(Extract(p, d, alloc)) && Keeps(p, Extract(p, d, alloc))
  {
    if !p.available {
      ScanLatches(p, d, 0, alloc);
    }
  }

  // ---- Runs ----

  /** The state after `frame_manager_register_consumer`. */
  function AfterRegister(s: Snapshot, consumer: Consumer, complete: bool): Snapshot {
    if !complete || |s.consumers| >= MAX_FRAME_CONSUMERS then s
    else s.(consumers := s.consumers + [consumer.(active := true)])
  }

  /** The state after enabling, disabling or unregistering a consumer. */
  function AfterEnable(s: Snapshot, id: int, enabled: bool): Snapshot {
    if id < 0 || id >= |s.consumers| then s
    else s.(consumers := s.consumers[id := s.consumers[id].(active := enabled)])
  }

  /** `PassOp` is a pass over a channel that fetched a stream. */
  datatype Operation =
    | RegisterOp(consumer: Consumer, complete: bool)
    | EnableOp(id: int, enabled: bool)
    | PassOp(st: EncoderStream, channel: nat, room: bool, alloc: Allocator)

  ghost predicate Fits(op: Operation) {
    op.PassOp? ==> op.channel < FS_CHN_NUM && PacksFit(op.st) && TotalLength(op.st.packs) < UINT32_LIMIT
  }

  ghost predicate AllFit(ops: seq<Operation>) {
    forall k :: 0 <= k < |ops| ==> Fits(ops[k])
  }

  function Apply(s: Snapshot, op: Operation): (r: Snapshot)
    requires |s.params| == |s.sequence| == |s.framesPerChannel| == FS_CHN_NUM && Fits(op)
    ensures |r.params| == |r.sequence| == |r.framesPerChannel| == FS_CHN_NUM
  {
    match op
    case RegisterOp(consumer, complete) => AfterRegister(s, consumer, complete)
    case EnableOp(id, enabled) => AfterEnable(s, id, enabled)
    case PassOp(st, channel, room, alloc) => AfterStream(s, st, channel, room, alloc)
  }

  function Run(s: Snapshot, ops: seq<Operation>): (r: Snapshot)
    requires |s.params| == |s.sequence| == |s.framesPerChannel| == FS_CHN_NUM && AllFit(ops)
    ensures |r.params| == |r.sequence| == |r.framesPerChannel| == FS_CHN_NUM
  {
    if ops == [] then s else Apply(Run(s, ops[..|ops| - 1]), ops[|ops| - 1])
  }

  /** Frames shorter than four bytes come only to channels whose parameters are complete. */
  ghost predicate RunScannable(s: Snapshot, ops: seq<Operation>)
    requires |s.params| == |s.sequence| == |s.framesPerChannel| == FS_CHN_NUM && AllFit(ops)
  {
    forall k :: 0 <= k < |ops| && ops[k].PassOp? && ops[k].room ==>
      LongEnough(Run(s, ops[..k]), ops[k].st, ops[k].channel)
  }

  lemma {:induction false} ApplySound(s: Snapshot, op: Operation)
    requires Sound(s) && Fits(op)
    requires op.PassOp? && op.room ==> LongEnough(s, op.st, op.channel)
    ensures var after := Apply(s, op);
            && Sound(after) && s.trace <= after.trace
            && (forall c :: 0 <= c < FS_CHN_NUM ==> Keeps(s.params[c], after.params[c]))
  {
    hide AfterStream, HoldAfter, ParamsSound, CountsSound, FrameEvents, FrameOf;
    if op.PassOp? {
      AfterStreamSound(s, op.st, op.channel, op.room, op.alloc);
    }
  }

  /** Over any sequence of registrations, changes of consumers and passes, and all allocation outcomes:
      the state stays sound, whatever SPS or PPS a channel holds after `i` operations it still holds
      after `j`, the calls made are only added to, and on every channel exactly as many streams have been
      released as fetched. */
  lemma {:induction false} RunSound(s: Snapshot, ops: seq<Operation>, i: nat, j: nat)
    requires Sound(s) && AllFit(ops) && i <= j <= |ops| && RunScannable(s, ops)
    ensures var (before, after) := (Run(s, ops[..i]), Run(s, ops[..j]));
            && Sound(after)
            && before.trace <= after.trace
            && (forall c :: 0 <= c < FS_CHN_NUM ==> Keeps(before.params[c], after.params[c]))
            && (forall c :: CountEvent(after.trace, Got(c)) == CountEvent(after.trace, Released(c)))
    decreases j
  {
    hide Apply, HoldAfter, ParamsSound, CountsSound, CountEvent, LongEnough;
    if j == 0 {
      assert Run(s, ops[..0]) == s;
    } else {
      assert ops[..j][..j - 1] == ops[..j - 1];
      var k := if i == j then i - 1 else i;
      RunSound(s, ops, k, j - 1);
      ApplySound(Run(s, ops[..j - 1]), ops[j - 1]);
    }
    forall c
      ensures CountEvent(Run(s, ops[..j]).trace, Got(c)) == CountEvent(Run(s, ops[..j]).trace, Released(c))
    {
      BalancedCounts(Run(s, ops[..j]).trace, c);
    }
  }

  // ---- Who is called ----

  /** What one operation adds to the trace. */
  lemma {:induction false} ApplyTrace(s: Snapshot, op: Operation)
    requires |s.params| == |s.sequence| == |s.framesPerChannel| == FS_CHN_NUM && Fits(op)
    ensures Apply(s, op).trace == s.trace +
              if !op.PassOp? then []
              else if !op.room then [Got(op.channel), Released(op.channel)]
              else FrameEvents(s.consumers, FrameOf(op.st, op.channel, (s.sequence[op.channel] + 1) % UINT32_LIMIT))
  {
    hide FrameOf, Deliveries, Extract;
    if op.PassOp? && op.room {
      var frame := FrameOf(op.st, op.channel, (s.sequence[op.channel] + 1) % UINT32_LIMIT);
      FrameFields(op.st, op.channel, (s.sequence[op.channel] + 1) % UINT32_LIMIT);
      var (g, ds, r) := ([Got(op.channel)], Deliveries(s.consumers, |s.consumers|, frame), [Released(op.channel)]);
      assert s.trace + g + ds + r == s.trace + (g + ds + r);
    } else if op.PassOp? {
      assert s.trace + [Got(op.channel)] + [Released(op.channel)] == s.trace + [Got(op.channel), Released(op.channel)];
    } else {
      assert s.trace + [] == s.trace;
    }
  }

  lemma {:induction false} RunStep(s: Snapshot, ops: seq<Operation>, j: nat)
    requires |s.params| == |s.sequence| == |s.framesPerChannel| == FS_CHN_NUM && AllFit(ops) && j < |ops|
    ensures Run(s, ops[..j + 1]) == Apply(Run(s, ops[..j]), ops[j])
  {
    assert ops[..j + 1][..j] == ops[..j];
  }

  /** The consumer called `id` after the run is the one that got this id, and it is active exactly when
      each disabling since then was followed by an enabling. */
  lemma {:induction false} ActiveExactly(s: Snapshot, ops: seq<Operation>, i: nat, j: nat, id: nat)
    requires |s.params| == |s.sequence| == |s.framesPerChannel| == FS_CHN_NUM && AllFit(ops)
    requires i < j <= |ops| && ops[i].RegisterOp? && ops[i].complete
    requires |Run(s, ops[..i]).consumers| == id < MAX_FRAME_CONSUMERS
    ensures id < |Run(s, ops[..j]).consumers|
    ensures Run(s, ops[..j]).consumers[id].channelMask == ops[i].consumer.channelMask
    ensures Run(s, ops[..j]).consumers[id].active <==>
              forall k :: i < k < j && ops[k] == EnableOp(id, false) ==>
                exists m :: k < m < j && ops[m] == EnableOp(id, true)
    decreases j
  {
    hide Run, AfterStream;
    RunStep(s, ops, j - 1);
    if j > i + 1 {
      ActiveExactly(s, ops, i, j - 1, id);
      var (before, op) := (Run(s, ops[..j - 1]), ops[j - 1]);
      PassKeepsConsumers(before, op);
      if op == EnableOp(id, true) {
        assert forall k :: i < k < j && ops[k] == EnableOp(id, false) ==> k < j - 1 && ops[j - 1] == EnableOp(id, true);
      } else if op != EnableOp(id, false) {
        assert Apply(before, op).consumers[id].active == before.consumers[id].active;
      }
    }
  }

  lemma {:induction false} PassKeepsConsumers(s: Snapshot, op: Operation)
    requires |s.params| == |s.sequence| == |s.framesPerChannel| == FS_CHN_NUM && Fits(op)
    ensures op.PassOp? ==> Apply(s, op).consumers == s.consumers
  {
    hide FrameOf, Deliveries, Extract;
  }

  /** In every run: a registered consumer gets the frame of a pass exactly once if it was not left
      disabled and its mask has the bit of the channel, and no call at all otherwise. */
  lemma {:induction false} CalledExactly(s: Snapshot, ops: seq<Operation>, i: nat, j: nat, id: nat) returns (frame: FrameInfo)
    requires |s.params| == |s.sequence| == |s.framesPerChannel| == FS_CHN_NUM && AllFit(ops)
    requires i < j < |ops| && ops[i].RegisterOp? && ops[i].complete
    requires |Run(s, ops[..i]).consumers| == id < MAX_FRAME_CONSUMERS
    requires ops[j].PassOp? && ops[j].room
    ensures frame.data == Assembled(ops[j].st, |ops[j].st.packs|) && frame.channel == ops[j].channel
    ensures var (before, after) := (Run(s, ops[..j]).trace, Run(s, ops[..j + 1]).trace);
            && before <= after
            && (forall m :: |before| <= m < |after| && after[m].Delivered? && after[m].consumer == id ==>
                  after[m].frame == frame)
            && (forall m, n :: |before| <= m < n < |after| && after[m].Delivered? && after[n].Delivered? ==>
                  after[m].consumer < after[n].consumer)
            && ((exists m :: |before| <= m < |after| && after[m] == Delivered(id, frame)) <==>
                  && ops[i].consumer.channelMask / Pow2(ops[j].channel) % 2 == 1
                  && forall k :: i < k < j && ops[k] == EnableOp(id, false) ==>
                       exists m :: k < m < j && ops[m] == EnableOp(id, true))
  {
    hide Run, Apply, FrameOf, Assembled, Deliveries, AfterStream, HasBit;
    HasBitIs(ops[i].consumer.channelMask, ops[j].channel);
    var t := Run(s, ops[..j]);
    ActiveExactly(s, ops, i, j, id);
    RunStep(s, ops, j);
    ApplyTrace(t, ops[j]);
    FrameFields(ops[j].st, ops[j].channel, (t.sequence[ops[j].channel] + 1) % UINT32_LIMIT);
    frame := FrameOf(ops[j].st, ops[j].channel, (t.sequence[ops[j].channel] + 1) % UINT32_LIMIT);
    DeliveriesExact(t.consumers, |t.consumers|, frame);
    CallsBetween(t.trace, [Got(frame.channel)], Deliveries(t.consumers, |t.consumers|, frame), [Released(frame.channel)],
      Delivered(id, frame));
  }

  /** Where the deliveries stand in the trace of a pass. */
  lemma {:induction false} CallsBetween(before: seq<Event>, g: seq<Event>, ds: seq<Event>, r: seq<Event>, e: Event)
    requires |g| == |r| == 1 && !g[0].Delivered? && !r[0].Delivered? && e.Delivered?
    ensures var after := before + (g + ds + r);
            && (forall m :: |before| <= m < |after| && after[m].Delivered? ==>
                  |before| < m <= |before| + |ds| && after[m] == ds[m - |before| - 1])
            && ((exists m :: |before| <= m < |after| && after[m] == e) <==> e in ds)
  {
    var after := before + (g + ds + r);
    forall m | |before| <= m < |after| && after[m].Delivered?
      ensures |before| < m <= |before| + |ds| && after[m] == ds[m - |before| - 1]
    {
    }
    if e in ds {
      var k :| 0 <= k < |ds| && ds[k] == e;
      assert after[|before| + 1 + k] == e;
    }
  }

  /** A disabled or unregistered consumer is not called before it is enabled again, whatever happens. */
  lemma {:induction false} DisabledIsSilent(s: Snapshot, ops: seq<Operation>, i: nat, j: nat, id: nat)
    requires |s.params| == |s.sequence| == |s.framesPerChannel| == FS_CHN_NUM && AllFit(ops)
    requires i < j <= |ops| && id < |Run(s, ops[..i]).consumers| && ops[i] == EnableOp(id, false)
    requires forall k :: i < k < j ==> ops[k] != EnableOp(id, true)
    ensures id < |Run(s, ops[..j]).consumers| && !Run(s, ops[..j]).consumers[id].active
    ensures var (before, after) := (Run(s, ops[..i]).trace, Run(s, ops[..j]).trace);
            before <= after && forall m :: |before| <= m < |after| && after[m].Delivered? ==> after[m].consumer != id
    decreases j
  {
    hide Run, AfterStream, FrameOf, Deliveries;
    RunStep(s, ops, j - 1);
    ApplyTrace(Run(s, ops[..j - 1]), ops[j - 1]);
    PassKeepsConsumers(Run(s, ops[..j - 1]), ops[j - 1]);
    if j > i + 1 {
      DisabledIsSilent(s, ops, i, j - 1, id);
      var (t, op) := (Run(s, ops[..j - 1]), ops[j - 1]);
      if op.PassOp? && op.room {
        var frame := FrameOf(op.st, op.channel, (t.sequence[op.channel] + 1) % UINT32_LIMIT);
        FrameFields(op.st, op.channel, (t.sequence[op.channel] + 1) % UINT32_LIMIT);
        DeliveriesExact(t.consumers, |t.consumers|, frame);
        var ds := Deliveries(t.consumers, |t.consumers|, frame);
        forall k | 0 <= k < |ds|
          ensures ds[k].Delivered? && ds[k].consumer != id
        {
          assert ds[k] in ds;
        }
        CallsBetween(t.trace, [Got(frame.channel)], ds, [Released(frame.channel)], Delivered(id, frame));
      }
    }
  }

  /** In a sound state nothing was released that was not held. */
  lemma {:induction false} NothingReleasedTwice(trace: seq<Event>, i: nat)
    requires !HoldAfter(trace).Broken? && i < |trace|
    ensures !trace[i].ReleasedNothing?
  {
    if i < |trace| - 1 {
      NothingReleasedTwice(trace[..|trace| - 1], i);
    }
  }

  /** Ring buffer to consumers: when the packs of a stream unroll to a printed list of NAL units,
      the delivered frame is that list, marked as a keyframe iff its first slice behind a long start
      code is an IDR slice, and the channel's parameters are completed from the list. */
  lemma {:induction false} PrintedFrameDelivered(s: Snapshot, st: EncoderStream, channel: nat, us: seq<NalUnit>, alloc: Allocator)
    requires Sound(s) && channel < FS_CHN_NUM && PacksFit(st)
    requires us != [] && AllWellFormed(us) && Visible(us[|us| - 1], true)
    requires Assembled(st, |st.packs|) == Serialize(us)
    requires forall k :: alloc(k)
    ensures var frame := FrameOf(st, channel, (s.sequence[channel] + 1) % UINT32_LIMIT);
            var after := AfterStream(s, st, channel, true, alloc);
            && LongEnough(s, st, channel)
            && frame.data == Serialize(us)
            && (frame.isKeyframe <==> FirstSlice(us, true) == Some(IDR_SLICE))
            && after.trace == s.trace + FrameEvents(s.consumers, frame)
            && after.params[channel].sps == OrElse(s.params[channel].sps, FirstOfType(us, SPS))
            && after.params[channel].pps == OrElse(s.params[channel].pps, FirstOfType(us, PPS))
  {
    hide Assembled, Detect, Extract, Serialize, FirstSlice, FirstOfType, HoldAfter, Deliveries, FrameEvents;
    DetectPrinted(us);
    ExtractSerialized(s.params[channel], us, alloc);
    SerializeLength(us);
    WholeLength(st);
    AfterStreamSound(s, st, channel, true, alloc);
  }

  // ---- The frame manager ----

  /** The static state of frame_manager.c: `g_frame_manager` and the static locals of
      `process_frame_from_encoder`. */
  class Manager {
    var consumers: seq<Consumer>
    var params: seq<StreamParams>
    var buf: seq<array?<byte>>
    var cap: seq<nat>
    var sequence: seq<nat>
    var totalFrames: nat
    var framesPerChannel: seq<nat>
    const world: World

    ghost function View(): Snapshot
      reads this, world
    {
      Snapshot(consumers, params, sequence, totalFrames, framesPerChannel, world.trace)
    }

    ghost predicate Valid()
      reads this, world, buf
    {
      ValidBuffers() && Sound(View())
    }

    /** `cap` is the size of each channel's buffer, and buffers are not shared. */
    ghost predicate ValidBuffers()
      reads this, buf
    {
      && |buf| == |cap| == FS_CHN_NUM
      && (forall c :: 0 <= c < FS_CHN_NUM ==> cap[c] == if buf[c] == null then 0 else buf[c].Length)
      && (forall c, d :: 0 <= c < d < FS_CHN_NUM && buf[c] != null ==> buf[c] != buf[d])
    }

    /** The channel's buffer starts with `data`. */
    ghost predicate Holds(channel: nat, data: seq<byte>)
      requires channel < |buf|
      reads this, buf
    {
      if buf[channel] == null then data == []
      else |data| <= buf[channel].Length && buf[channel][..|data|] == data
    }

    constructor ()
      ensures Valid()
      ensures consumers == [] && world.trace == [] && fresh(world)
      ensures forall c :: 0 <= c < FS_CHN_NUM ==> params[c] == EMPTY_PARAMS && buf[c] == null && sequence[c] == 0
    {
      consumers := [];
      params := seq(FS_CHN_NUM, _ => EMPTY_PARAMS);
      buf := seq(FS_CHN_NUM, _ => null);
      cap := seq(FS_CHN_NUM, _ => 0);
      sequence := seq(FS_CHN_NUM, _ => 0);
      totalFrames := 0;
      framesPerChannel := seq(FS_CHN_NUM, _ => 0);
      world := new World();
    }

    /** `frame_manager_register_consumer`; `complete` says that name and callback are given. */
    method RegisterConsumer(consumer: Consumer, complete: bool) returns (id: int)
      requires Valid()
      modifies this`consumers
      ensures Valid()
      ensures id >= 0 <==> complete && old(|consumers|) < 8
      ensures id >= 0 ==> id == old(|consumers|) && consumers == old(consumers) + [consumer.(active := true)]
      ensures id < 0 ==> consumers == old(consumers)
      ensures View() == AfterRegister(old(View()), consumer, complete)
    {
      if !complete || |consumers| >= MAX_FRAME_CONSUMERS {
        return -1;
      }
      id := |consumers|;
      consumers := consumers + [consumer.(active := true)];
    }

    /** `frame_manager_set_consumer_enabled`; unregistering is the same with `enabled` false. */
    method SetConsumerEnabled(id: int, enabled: bool) returns (ret: int)
      requires Valid()
      modifies this`consumers
      ensures Valid()
      ensures ret == 0 <==> 0 <= id < |old(consumers)|
      ensures consumers == if ret == 0 then old(consumers)[id := old(consumers)[id].(active := enabled)]
                           else old(consumers)
      ensures View() == AfterEnable(old(View()), id, enabled)
    {
      if id < 0 || id >= |consumers| {
        return -1;
      }
      consumers := consumers[id := consumers[id].(active := enabled)];
      return 0;
    }

    /** `frame_manager_get_consumer_count`. */
    method GetConsumerCount(channel: nat) returns (count: nat)
      requires channel < INT_BITS
      ensures count == CountWanting(consumers, |consumers|, channel)
      ensures count == |Listening(consumers, |consumers|, channel)|
    {
      hide HasBit;
      CountExact(consumers, |consumers|, channel);
      count := 0;
      for i := 0 to |consumers|
        invariant count == CountWanting(consumers, i, channel)
      {
        if Wants(consumers[i], channel) {
          count := count + 1;
        }
      }
    }

    /** `distribute_frame_to_consumers`. */
    method Distribute(frame: FrameInfo)
      requires frame.channel < FS_CHN_NUM
      modifies world
      ensures world.trace == old(world.trace) + Deliveries(consumers, |consumers|, frame)
    {
      for i := 0 to |consumers|
        invariant world.trace == old(world.trace) + Deliveries(consumers, i, frame)
      {
        if Wants(consumers[i], frame.channel) {
          world.Callback(i, frame);
        }
      }
    }

    /** The capacity check of lines 358-362. */
    method Reserve(channel: nat, size: nat, granted: bool) returns (ok: bool)
      requires ValidBuffers() && channel < FS_CHN_NUM
      modifies this`buf, this`cap
      ensures ValidBuffers()
      ensures ok <==> size <= old(cap[channel]) || granted
      ensures !ok || size <= old(cap[channel]) ==> buf == old(buf) && cap == old(cap)
      ensures ok && old(cap[channel]) < size ==>
                && buf[channel] != null && fresh(buf[channel])
                && buf == old(buf)[channel := buf[channel]]
                && cap == old(cap)[channel := size]
    {
      if cap[channel] < size {
        if !granted {
          return false;
        }
        var was := buf[channel];
        var grown := new byte[size];
        if was != null {
          forall k | 0 <= k < was.Length {
            grown[k] := was[k];
          }
        }
        buf := buf[channel := grown];
        cap := cap[channel := size];
      }
      return true;
    }

    /** `process_frame_from_encoder`. The inputs are what polling, `hal_stream_get`, `realloc` and
        the allocations of the parameter scanner answer. */
    method ProcessFrame(channel: nat, poll: int, got: Option<EncoderStream>, granted: bool, alloc: Allocator)
      returns (ret: int)
      requires Valid() && channel < FS_CHN_NUM
      requires got.Some? ==>
                 && PacksFit(got.value)
                 && TotalLength(got.value.packs) < UINT32_LIMIT
                 && (TotalLength(got.value.packs) <= cap[channel] || granted ==>
                       TotalLength(got.value.packs) >= 4 || params[channel].available)
      modifies this, world, buf[channel]
      ensures Valid()
      ensures ret == 0 <==> poll >= 0 && got.Some? && (TotalLength(got.value.packs) <= old(cap[channel]) || granted)
      ensures View() == if poll < 0 || got.None? then old(View())
                        else AfterStream(old(View()), got.value, channel, ret == 0, alloc)
      ensures old(cap[channel]) <= cap[channel]
      ensures ret != 0 ==> buf == old(buf)
      ensures ret == 0 ==>
                && buf == old(buf)[channel := buf[channel]]
                && Holds(channel, Assembled(got.value, |got.value.packs|))
    {
      hide Published, FrameOf, Deliveries, FrameEvents, Assembled, ParamsSound, CountsSound, HoldAfter, Keeps, TotalLength;
      if poll < 0 {
        return -1;
      }
      var hs := new Stream();
      ret := hs.Get(world, channel, got);
      if ret < 0 {
        return -1;
      }
      AfterStreamSound(old(View()), got.value, channel,
        TotalLength(got.value.packs) <= old(cap[channel]) || granted, alloc);
      var ok := ProcessHeld(hs, channel, granted, alloc);
      return if ok then 0 else -1;
    }

    /** Lines 350-407, while the stream is held. */
    method ProcessHeld(hs: Stream, channel: nat, granted: bool, alloc: Allocator) returns (ok: bool)
      requires ValidBuffers() && channel < FS_CHN_NUM == |params| == |sequence| == |framesPerChannel|
      requires hs.impl.Some? && PacksFit(hs.impl.value) && TotalLength(hs.impl.value.packs) < UINT32_LIMIT
      requires TotalLength(hs.impl.value.packs) <= cap[channel] || granted ==>
                 TotalLength(hs.impl.value.packs) >= 4 || params[channel].available
      modifies this, world, hs, buf[channel]
      ensures hs.impl == None
      ensures ValidBuffers()
      ensures ok <==> TotalLength(old(hs.impl.value.packs)) <= old(cap[channel]) || granted
      ensures View() == Logged(
                if ok then Published(old(View()),
                  FrameOf(old(hs.impl.value), channel, (old(sequence[channel]) + 1) % UINT32_LIMIT), alloc)
                else old(View()),
                Released(channel))
      ensures old(cap[channel]) <= cap[channel]
      ensures buf == old(buf)[channel := buf[channel]]
      ensures !ok ==> buf == old(buf)
      ensures ok ==> Holds(channel, Assembled(old(hs.impl.value), |old(hs.impl.value).packs|))
    {
      hide Published, FrameOf, Assembled, TotalLength;
      var frameSize := FrameSize(hs);
      ok := Reserve(channel, frameSize, granted);
      if ok {
        Deliver(hs, channel, frameSize, alloc);
      }
      var released := hs.Release(world, channel, 0);
    }

    /** Lines 364-407, between reserving the buffer and releasing the stream. */
    method Deliver(hs: Stream, channel: nat, size: nat, alloc: Allocator)
      requires ValidBuffers() && channel < FS_CHN_NUM == |params| == |sequence| == |framesPerChannel|
      requires hs.impl.Some? && PacksFit(hs.impl.value)
      requires size == TotalLength(hs.impl.value.packs) < UINT32_LIMIT && size <= cap[channel]
      requires size >= 4 || params[channel].available
      modifies buf[channel], world, this`sequence, this`params, this`totalFrames, this`framesPerChannel
      ensures View() == Published(old(View()),
                FrameOf(hs.impl.value, channel, (old(sequence[channel]) + 1) % UINT32_LIMIT), alloc)
      ensures Holds(channel, Assembled(hs.impl.value, |hs.impl.value.packs|))
    {
      hide Extract, FrameOf, Deliveries, Assembled, TotalLength;
      var frame := BuildFrame(hs, channel, size);
      Publish(frame, alloc);
    }

    /** Lines 364-386: the packs are copied and the frame record is filled in. */
    method BuildFrame(hs: Stream, channel: nat, size: nat) returns (frame: FrameInfo)
      requires ValidBuffers() && channel < FS_CHN_NUM == |sequence|
      requires hs.impl.Some? && PacksFit(hs.impl.value)
      requires size == TotalLength(hs.impl.value.packs) < UINT32_LIMIT && size <= cap[channel]
      modifies buf[channel], this`sequence
      ensures frame == FrameOf(hs.impl.value, channel, (old(sequence[channel]) + 1) % UINT32_LIMIT)
      ensures |frame.data| == size && frame.data == Assembled(hs.impl.value, |hs.impl.value.packs|)
      ensures frame.channel == channel
      ensures sequence == old(sequence)[channel := frame.sequence]
      ensures Holds(channel, frame.data)
    {
      hide Detect, Assembled;
      CopyPacks(hs, buf[channel], size);
      var tvSec, tvUsec := 0, 0;
      if hs.PackCount() > 0 {
        var ts := hs.PackTimestampUs(0);
        tvSec, tvUsec := ts / 1000000, ts % 1000000;
      }
      sequence := sequence[channel := (sequence[channel] + 1) % UINT32_LIMIT];
      var frameType := DetectFrameType(buf[channel], size);
      var data := if buf[channel] == null then [] else buf[channel][..size];
      frame := FrameInfo(data, channel, frameType, tvSec, tvUsec, sequence[channel], frameType == H264Idr);
    }

    /** Lines 389-401: parameters, consumers, statistics. */
    method Publish(frame: FrameInfo, alloc: Allocator)
      requires ValidBuffers() && frame.channel < FS_CHN_NUM == |params| == |sequence| == |framesPerChannel|
      requires Holds(frame.channel, frame.data)
      requires |frame.data| >= 4 || params[frame.channel].available
      requires sequence[frame.channel] == frame.sequence
      modifies world, this`params, this`totalFrames, this`framesPerChannel
      ensures View() == Published(old(View()), frame, alloc)
    {
      hide Extract, Deliveries;
      var channel := frame.channel;
      var extracted := ExtractStreamParams(params[channel], buf[channel], |frame.data|, alloc);
      params := params[channel := extracted];
      Distribute(frame);
      totalFrames := totalFrames + 1;
      framesPerChannel := framesPerChannel[channel := framesPerChannel[channel] + 1];
      assert sequence == sequence[channel := frame.sequence];
    }

    /** Lines 351-353. */
    method FrameSize(hs: Stream) returns (size: nat)
      requires hs.impl.Some? && TotalLength(hs.impl.value.packs) < UINT32_LIMIT
      ensures size == TotalLength(hs.impl.value.packs)
    {
      var packs := hs.impl.value.packs;
      size := 0;
      for i := 0 to hs.PackCount()
        invariant size == TotalLength(packs[..i])
      {
        assert packs[..i + 1][..i] == packs[..i];
        TotalLengthMonotone(packs, i + 1);
        size := (size + hs.PackLength(i)) % UINT32_LIMIT;
      }
      assert packs[..|packs|] == packs;
    }

    /** Lines 365-366. */
    method CopyPacks(hs: Stream, dst: array?<byte>, size: nat)
      requires hs.impl.Some? && PacksFit(hs.impl.value)
      requires size == TotalLength(hs.impl.value.packs) < UINT32_LIMIT
      requires size <= if dst == null then 0 else dst.Length
      modifies dst
      ensures (if dst == null then [] else dst[..size]) == Assembled(hs.impl.value, |hs.impl.value.packs|)
    {
      hide Assembled, TotalLength, Gather;
      var st := hs.impl.value;
      var offset := 0;
      NothingAssembled(st);
      for i := 0 to hs.PackCount()
        invariant hs.impl == Some(st)
        invariant offset == TotalLength(st.packs[..i])
        invariant dst != null ==> offset <= dst.Length && dst[..offset] == Assembled(st, i)
      {
        TotalLengthMonotone(st.packs, i + 1);
        AssembledLength(st, i);
        OneMorePack(st, i);
        var copied := hs.CopyPack(i, dst, offset);
        assert dst == null ==> st.packs[i].length == 0;
        offset := (offset + copied) % UINT32_LIMIT;
      }
      assert st.packs[..|st.packs|] == st.packs;
      AssembledLength(st, |st.packs|);
    }
  }
}
