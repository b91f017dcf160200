/** Stream statistics of src/modules/metrics/metrics_module.c: the frame counters and rate windows of
    each channel (lines 612-744) and the history of samples (lines 498-523, 747-797). `unsigned long` and
    `uint32_t` are 32 bits wide and wrap around; rates are real numbers. */
module Metrics {
  import opened Common
  import Ring

  const CHANNELS: nat := 4
  const SECOND: nat := 1_000_000
  const LONGEST: nat := 10_000_000

  /** `stream_stats[channel]`. */
  datatype Stats = Stats(
    frameCount: uint32,
    errorCount: uint32,
    totalFrameSize: uint32,
    lastFpsTime: uint32,
    fpsFrameCount: uint32,
    currentFps: real)

  /** `stream_metrics_t`. */
  datatype Sample = Sample(
    fps: real,
    frameCount: uint32,
    errorCount: uint32,
    avgFrameSize: uint32,
    clientCount: nat,
    timestamp: uint32)

  /** `channel_metrics_t`, the copy for status.json. */
  datatype ChannelMetrics = ChannelMetrics(
    fps: real,
    frameCount: uint32,
    errorCount: uint32,
    avgFrameSize: uint32,
    lastUpdateTime: int)

  const NO_METRICS: ChannelMetrics := ChannelMetrics(0.0, 0, 0, 0, 0)

  const NO_SAMPLE: Sample := Sample(0.0, 0, 0, 0, 0, 0)

  /** One call of `metrics_update_stream_frame`, with the clock that it reads. */
  datatype Frame = Frame(size: uint32, isError: bool, now: uint32)

  // ---- One frame ----

  /** Unsigned 32-bit arithmetic. */
  function Wrap(x: int): uint32 {
    x % UINT32_LIMIT
  }

  function Begin(now: uint32): Stats {
    Stats(0, 0, 0, now, 0, 0.0)
  }

  /** What a frame does to the current window: it is counted, it closes and publishes the window, or it
      finds the clock out of step and discards what was counted before it. */
  datatype Outcome = Counted | Published | Discarded

  function OutcomeOf(s: Stats, f: Frame): Outcome {
    var elapsed := Wrap(f.now - s.lastFpsTime);
    if elapsed > LONGEST || f.now < s.lastFpsTime then Discarded
    else if elapsed >= SECOND then Published
    else Counted
  }

  function Rate(count: uint32, elapsed: uint32): real
    requires elapsed > 0
  {
    count as real / (elapsed as real / 1000000.0)
  }

  function Step(s: Stats, f: Frame): Stats {
    var counted := s.(
      frameCount := Wrap(s.frameCount + 1),
      errorCount := if f.isError then Wrap(s.errorCount + 1) else s.errorCount,
      totalFrameSize := if f.isError then s.totalFrameSize else Wrap(s.totalFrameSize + f.size),
      fpsFrameCount := Wrap(s.fpsFrameCount + 1));
    match OutcomeOf(s, f)
    case Counted => counted
    case Discarded => counted.(lastFpsTime := f.now, fpsFrameCount := 1)
    case Published =>
      counted.(
        currentFps := Rate(counted.fpsFrameCount, Wrap(f.now - s.lastFpsTime)),
        lastFpsTime := f.now,
        fpsFrameCount := 0)
  }

  /** The sample that `metrics_get_stream_metrics` takes. */
  function SampleOf(s: Stats, clients: nat, now: uint32): Sample {
    Sample(
      s.currentFps, s.frameCount, s.errorCount,
      if s.frameCount > 0 then s.totalFrameSize / s.frameCount else 0,
      clients, now)
  }

  /** The same numbers for status.json. */
  function MetricsOf(s: Stats, wallTime: int): ChannelMetrics {
    var sample := SampleOf(s, 0, 0);
    ChannelMetrics(sample.fps, sample.frameCount, sample.errorCount, sample.avgFrameSize, wallTime)
  }

  // ---- The module ----

  /** Clock readings and client counts per channel. */
  type Readings = nat -> uint32
  type Clients = nat -> nat

  /** The statistics of all channels; None before the first frame. */
  type Channels = Option<seq<Stats>>

  function Opened(c: Channels, clocks: Readings): (r: Channels)
    ensures r.Some?
  {
    if c.Some? then c else Some(seq(CHANNELS, i requires 0 <= i < CHANNELS => Begin(clocks(i))))
  }

  /** The statistics after a call for any channel number. */
  function Updated(c: Channels, enabled: bool, channel: int, f: Frame, clocks: Readings): Channels
    requires c.Some? ==> |c.value| == CHANNELS
  {
    if !enabled || channel < 0 || channel >= CHANNELS then c
    else
      var stats := Opened(c, clocks).value;
      Some(stats[channel := Step(stats[channel], f)])
  }

  /** What is recorded for a channel by one collection. */
  function Collected(c: Channels, i: nat, clients: Clients, clocks: Readings): Sample
    requires i < CHANNELS && (c.Some? ==> |c.value| == CHANNELS)
  {
    if c.None? then NO_SAMPLE else SampleOf(c.value[i], clients(i), clocks(i))
  }

  ghost function Extended(log: seq<seq<Sample>>, c: Channels, clients: Clients, clocks: Readings): seq<seq<Sample>>
    requires |log| <= CHANNELS && (c.Some? ==> |c.value| == CHANNELS)
  {
    seq(|log|, i requires 0 <= i < |log| => log[i] + [Collected(c, i, clients, clocks)])
  }

  lemma {:induction false} SmallRemainder(x: nat, size: nat)
    requires x < size
    ensures (x + 1) % size == Ring.Next(size, x)
  {
  }

  /** `stream_stats` and the stream part of `g_metrics_state`. */
  class MetricsModule {
    const streamStats: array<Stats>
    var statsInitialized: bool
    const currentStreams: array<Sample>
    const channelMetrics: array<ChannelMetrics>
    /** `collect.streams`; without it there are no history buffers. */
    const collectStreams: bool
    const maxSize: nat
    const history: array2<Sample>
    var currentIndex: nat
    var collections: nat
    /** All samples ever recorded, per channel. */
    ghost var log: seq<seq<Sample>>

    ghost function Row(i: nat): (row: seq<Sample>)
      reads history
      requires i < history.Length0
      ensures |row| == history.Length1
    {
      seq(history.Length1, k requires 0 <= k < history.Length1 reads history => history[i, k])
    }

    ghost predicate Valid()
      reads this, streamStats, currentStreams, channelMetrics, history
    {
      && streamStats.Length == CHANNELS && currentStreams.Length == CHANNELS && channelMetrics.Length == CHANNELS
      && 1 <= maxSize <= 1000
      && history.Length0 == (if collectStreams then CHANNELS else 0) && history.Length1 == maxSize
      && currentIndex == Ring.Slot(maxSize, collections)
      && |log| == history.Length0
      && (forall i :: 0 <= i < |log| ==> |log[i]| == collections && Ring.Represents(Row(i), log[i]))
    }

    ghost function View(): Channels
      reads this, streamStats
    {
      if statsInitialized then Some(streamStats[..]) else None
    }

    /** The parts of `metrics_module_init` for streams; the configuration has been validated. */
    constructor (historySize: nat, collectStreams: bool)
      requires 1 <= historySize <= 1000
      ensures Valid() && View() == None && collections == 0
      ensures this.collectStreams == collectStreams && maxSize == historySize
    {
      var none := Begin(0);
      streamStats := new Stats[CHANNELS](_ => none);
      currentStreams := new Sample[CHANNELS](_ => NO_SAMPLE);
      channelMetrics := new ChannelMetrics[CHANNELS](_ => NO_METRICS);
      statsInitialized := false;
      this.collectStreams, maxSize := collectStreams, historySize;
      var rows := if collectStreams then CHANNELS else 0;
      history := new Sample[rows, historySize]((_, _) => NO_SAMPLE);
      currentIndex, collections := 0, 0;
      log := seq(rows, _ => []);
    }

    /** `init_stream_stats`. */
    method InitStreamStats(clocks: Readings)
      requires Valid()
      modifies this`statsInitialized, streamStats
      ensures Valid()
      ensures View() == Opened(old(View()), clocks)
    {
      if statsInitialized {
        return;
      }
      for i := 0 to CHANNELS
        invariant Valid() && !statsInitialized
        invariant forall k :: 0 <= k < i ==> streamStats[k] == Begin(clocks(k))
      {
        streamStats[i] := Begin(clocks(i));
      }
      statsInitialized := true;
      assert streamStats[..] == seq(CHANNELS, i requires 0 <= i < CHANNELS => Begin(clocks(i)));
    }

    /** The frame closes a window of its channel. */
    ghost predicate Closes(enabled: bool, channel: int, f: Frame, clocks: Readings)
      reads this, streamStats
      requires streamStats.Length == CHANNELS
    {
      enabled && 0 <= channel < CHANNELS && OutcomeOf(Opened(View(), clocks).value[channel], f) == Published
    }

    /** `metrics_update_stream_frame`. A closed window also shows in `current_streams` and, when the lock
        of `channel_metrics` is free, in the copy for status.json. */
    method UpdateStreamFrame(
      enabled: bool, channel: int, f: Frame, clocks: Readings, clients: nat, unlocked: bool, wallTime: int)
      requires Valid()
      modifies this`statsInitialized, streamStats, currentStreams, channelMetrics
      ensures Valid()
      ensures View() == Updated(old(View()), enabled, channel, f, clocks)
      ensures currentStreams[..] ==
              if old(Closes(enabled, channel, f, clocks))
              then old(currentStreams[..])[channel := SampleOf(View().value[channel], clients, f.now)]
              else old(currentStreams[..])
      ensures channelMetrics[..] ==
              if old(Closes(enabled, channel, f, clocks)) && unlocked
              then old(channelMetrics[..])[channel := MetricsOf(View().value[channel], wallTime)]
              else old(channelMetrics[..])
    {
      hide Wrap, Rate, SampleOf, MetricsOf, Ring.Slot, Ring.Represents;
      if !enabled || channel < 0 || channel >= CHANNELS {
        return;
      }
      if !statsInitialized {
        InitStreamStats(clocks);
      }
      ghost var before := View().value;
      var s := streamStats[channel];
      s := s.(frameCount := Wrap(s.frameCount + 1));
      if f.isError {
        s := s.(errorCount := Wrap(s.errorCount + 1));
      } else {
        s := s.(totalFrameSize := Wrap(s.totalFrameSize + f.size));
      }
      var elapsed := Wrap(f.now - s.lastFpsTime);
      s := s.(fpsFrameCount := Wrap(s.fpsFrameCount + 1));
      if elapsed > LONGEST || f.now < s.lastFpsTime {
        streamStats[channel] := s.(lastFpsTime := f.now, fpsFrameCount := 1);
        assert View().value == before[channel := Step(before[channel], f)];
        return;
      }
      if elapsed >= SECOND {
        s := s.(currentFps := Rate(s.fpsFrameCount, elapsed));
        s := s.(fpsFrameCount := 0, lastFpsTime := f.now);
        Publish(channel, s, f.now, clients, unlocked, wallTime);
      }
      streamStats[channel] := s;
      assert View().value == before[channel := Step(before[channel], f)];
    }

    /** Lines 715-741. */
    method Publish(channel: nat, s: Stats, now: uint32, clients: nat, unlocked: bool, wallTime: int)
      requires channel < CHANNELS && currentStreams.Length == CHANNELS && channelMetrics.Length == CHANNELS
      modifies currentStreams, channelMetrics
      ensures currentStreams[..] == old(currentStreams[..])[channel := SampleOf(s, clients, now)]
      ensures channelMetrics[..] ==
              if unlocked then old(channelMetrics[..])[channel := MetricsOf(s, wallTime)] else old(channelMetrics[..])
    {
      var avgFrameSize := if s.frameCount > 0 then s.totalFrameSize / s.frameCount else 0;
      if unlocked {
        channelMetrics[channel] := ChannelMetrics(s.currentFps, s.frameCount, s.errorCount, avgFrameSize, wallTime);
      }
      currentStreams[channel] := Sample(s.currentFps, s.frameCount, s.errorCount, avgFrameSize, clients, now);
    }

    /** `metrics_get_stream_metrics` into the entry of a channel. */
    method GetStreamMetrics(i: nat, clients: Clients, clocks: Readings)
      requires streamStats.Length == CHANNELS && currentStreams.Length == CHANNELS && i < CHANNELS
      modifies currentStreams
      ensures currentStreams[..] == old(currentStreams[..])[i := Collected(View(), i, clients, clocks)]
    {
      hide SampleOf;
      if !statsInitialized {
        currentStreams[i] := NO_SAMPLE;
        return;
      }
      currentStreams[i] := SampleOf(streamStats[i], clients(i), clocks(i));
    }

    /** The stream part of one turn of `metrics_collection_thread`: the history then holds exactly the last
        `maxSize` samples of every channel. */
    method Collect(clients: Clients, clocks: Readings)
      requires Valid()
      modifies this`currentIndex, this`collections, this`log, currentStreams, history
      ensures Valid() && View() == old(View())
      ensures collections == old(collections) + 1
      ensures forall i :: 0 <= i < |log| ==>
                log[i] == old(log[i]) + [Collected(View(), i, clients, clocks)]
      ensures collectStreams ==> forall i :: 0 <= i < CHANNELS ==>
                currentStreams[i] == Collected(View(), i, clients, clocks)
      ensures currentIndex == collections % maxSize
    {
      hide Ring.Slot, Ring.Represents, Collected;
      var index := currentIndex;
      ghost var c := View();
      assert index < maxSize by { Ring.SlotIsRemainder(maxSize, collections); }
      if collectStreams {
        for i := 0 to CHANNELS
          invariant forall k :: 0 <= k < i ==> currentStreams[k] == Collected(c, k, clients, clocks)
          invariant forall k :: 0 <= k < i ==> Row(k) == old(Row(k))[index := Collected(c, k, clients, clocks)]
          invariant forall k :: i <= k < CHANNELS ==> Row(k) == old(Row(k))
          modifies currentStreams, history
        {
          GetStreamMetrics(i, clients, clocks);
          ghost var before := Row(i);
          history[i, index] := currentStreams[i];
          assert Row(i) == before[index := currentStreams[i]];
        }
      }
      forall i | 0 <= i < |log|
        ensures Ring.Represents(Row(i), log[i] + [Collected(c, i, clients, clocks)])
      {
        Ring.Append(old(Row(i)), log[i], Collected(c, i, clients, clocks));
      }
      log := Extended(log, c, clients, clocks);
      collections := collections + 1;
      SmallRemainder(index, maxSize);
      currentIndex := (index + 1) % maxSize;
      Ring.SlotIsRemainder(maxSize, collections);
      assert currentIndex == Ring.Slot(maxSize, collections) by { Ring.SlotNext(maxSize, collections - 1); }
    }
  }

  // ---- Windows over a run ----

  /** The statistics of one channel after its first frames. */
  function Run(start: uint32, frames: seq<Frame>): Stats {
    if frames == [] then Begin(start) else Step(Run(start, frames[..|frames| - 1]), frames[|frames| - 1])
  }

  /** A closed window: the frames `from` up to `to` that it covers, the clock at both ends, and the rate if
      it was published. */
  datatype Window = Window(from: nat, to: nat, begun: uint32, closed: uint32, rate: Option<real>)

  /** The windows after frame `n`. */
  function Close(s: Stats, ws: seq<Window>, n: nat, f: Frame): seq<Window> {
    match OutcomeOf(s, f)
    case Counted => ws
    case Published => ws + [Window(End(ws), n + 1, s.lastFpsTime, f.now, Some(Step(s, f).currentFps))]
    case Discarded => ws + [Window(End(ws), n, s.lastFpsTime, f.now, None)]
  }

  /** The windows that a run has closed, in order. */
  function Windows(start: uint32, frames: seq<Frame>): seq<Window> {
    if frames == [] then []
    else
      var n := |frames| - 1;
      Close(Run(start, frames[..n]), Windows(start, frames[..n]), n, frames[n])
  }

  /** Where the closed windows end and the pending one begins. */
  function End(ws: seq<Window>): nat {
    if ws == [] then 0 else ws[|ws| - 1].to
  }

  function EndClock(start: uint32, ws: seq<Window>): uint32 {
    if ws == [] then start else ws[|ws| - 1].closed
  }

  /** Each window begins where the one before it ended, in frames and on the clock. */
  ghost predicate Chained(start: uint32, ws: seq<Window>) {
    forall i :: 0 <= i < |ws| ==> ws[i].from == End(ws[..i]) <= ws[i].to && ws[i].begun == EndClock(start, ws[..i])
  }

  /** A published window lasts from one to ten seconds up to its last frame, and its rate times its
      length is the number of its frames, as far as 32 bits can count it. */
  ghost predicate FairRate(w: Window, frames: seq<Frame>) {
    w.rate.Some? ==>
      && w.from < w.to <= |frames| && w.closed == frames[w.to - 1].now
      && SECOND <= w.closed - w.begun <= LONGEST
      && w.rate.value * ((w.closed - w.begun) as real / 1000000.0) == Wrap(w.to - w.from) as real
  }

  /** A discarded window ends before the frame whose clock was out of step with its beginning. */
  ghost predicate FairDiscard(w: Window, frames: seq<Frame>) {
    w.rate.None? ==>
      && w.from <= w.to < |frames| && w.closed == frames[w.to].now
      && (w.closed < w.begun || w.closed - w.begun > LONGEST)
  }

  ghost predicate Fair(w: Window, frames: seq<Frame>) {
    FairRate(w, frames) && FairDiscard(w, frames)
  }

  function LastRate(ws: seq<Window>): real {
    if ws == [] then 0.0
    else OrZero(ws[|ws| - 1].rate, LastRate(ws[..|ws| - 1]))
  }

  function OrZero(rate: Option<real>, otherwise: real): real {
    if rate.Some? then rate.value else otherwise
  }

  function Errors(frames: seq<Frame>): (n: nat)
    ensures n <= |frames|
  {
    if frames == [] then 0
    else Errors(frames[..|frames| - 1]) + if frames[|frames| - 1].isError then 1 else 0
  }

  function GoodBytes(frames: seq<Frame>): nat {
    if frames == [] then 0
    else GoodBytes(frames[..|frames| - 1]) + if frames[|frames| - 1].isError then 0 else frames[|frames| - 1].size
  }

  lemma {:induction false} WrapStep(x: nat, d: nat)
    ensures Wrap(Wrap(x) + d) == Wrap(x + d)
  {
  }

  /** The totals count all frames, modulo 2^32. */
  lemma {:induction false} TotalsCountFrames(start: uint32, frames: seq<Frame>)
    ensures var s := Run(start, frames);
            && s.frameCount == Wrap(|frames|) && s.errorCount == Wrap(Errors(frames))
            && s.totalFrameSize == Wrap(GoodBytes(frames))
  {
    hide Wrap, OutcomeOf, Rate;
    if frames == [] {
      WrapZero();
    } else {
      var init := frames[..|frames| - 1];
      TotalsCountFrames(start, init);
      WrapStep(|init|, 1);
      WrapStep(Errors(init), 1);
      WrapStep(GoodBytes(init), frames[|init|].size);
    }
  }

  lemma {:induction false} WrapZero()
    ensures Wrap(0) == 0 && Wrap(1) == 1
  {
  }

  lemma {:induction false} Extend(start: uint32, ws: seq<Window>, w: Window)
    requires Chained(start, ws) && w.from == End(ws) <= w.to && w.begun == EndClock(start, ws)
    ensures Chained(start, ws + [w]) && End(ws + [w]) == w.to && EndClock(start, ws + [w]) == w.closed
    ensures LastRate(ws + [w]) == OrZero(w.rate, LastRate(ws))
  {
  }

  lemma {:induction false} RateIsFair(count: uint32, elapsed: uint32)
    requires elapsed > 0
    ensures Rate(count, elapsed) * (elapsed as real / 1000000.0) == count as real
  {
  }

  lemma {:induction false} WrapSmall(x: int)
    ensures 0 <= x < UINT32_LIMIT ==> Wrap(x) == x
  {
  }

  /** What ties the counters of a channel to its windows after `n` frames. */
  ghost predicate Tied(start: uint32, s: Stats, ws: seq<Window>, n: nat) {
    && Chained(start, ws) && End(ws) <= n
    && s.fpsFrameCount == Wrap(n - End(ws)) && s.lastFpsTime == EndClock(start, ws)
    && s.currentFps == LastRate(ws)
  }

  lemma {:induction false} StepTied(start: uint32, s: Stats, ws: seq<Window>, n: nat, f: Frame)
    requires Tied(start, s, ws, n)
    ensures Tied(start, Step(s, f), Close(s, ws, n, f), n + 1)
  {
    hide Wrap, Rate, Chained, End, EndClock, LastRate, OutcomeOf;
    WrapStep(n - End(ws), 1);
    WrapZero();
    if OutcomeOf(s, f) == Published {
      Extend(start, ws, Window(End(ws), n + 1, s.lastFpsTime, f.now, Some(Step(s, f).currentFps)));
    } else if OutcomeOf(s, f) == Discarded {
      Extend(start, ws, Window(End(ws), n, s.lastFpsTime, f.now, None));
    }
  }

  /** Over every run, the frames fall into consecutive windows and a pending rest. The pending counter is
      the length of the rest, and the shown rate that of the last published window. */
  lemma {:induction false} FramesFallIntoWindows(start: uint32, frames: seq<Frame>)
    ensures Tied(start, Run(start, frames), Windows(start, frames), |frames|)
  {
    hide Close, Step;
    if frames != [] {
      var n := |frames| - 1;
      FramesFallIntoWindows(start, frames[..n]);
      StepTied(start, Run(start, frames[..n]), Windows(start, frames[..n]), n, frames[n]);
    }
  }

  /** The window that a frame closes is a fair one. */
  lemma {:induction false} ClosesFairly(start: uint32, s: Stats, ws: seq<Window>, frames: seq<Frame>, n: nat)
    requires Tied(start, s, ws, n) && n < |frames|
    ensures var after := Close(s, ws, n, frames[n]);
            after == ws || (after[..|after| - 1] == ws && Fair(after[|after| - 1], frames))
  {
    hide Wrap, Rate, Chained, End, EndClock, LastRate;
    var f := frames[n];
    WrapSmall(f.now - s.lastFpsTime);
    WrapStep(n - End(ws), 1);
    if OutcomeOf(s, f) == Published {
      RateIsFair(Wrap(s.fpsFrameCount + 1), f.now - s.lastFpsTime);
      assert n - End(ws) + 1 == n + 1 - End(ws);
    }
    assert forall w :: (ws + [w])[..|ws|] == ws;
  }

  /** Every window of every run is fair: published windows last one to ten seconds and show the true
      rate, and frames are discarded only when the clock jumped. */
  lemma {:induction false} WindowsAreFair(start: uint32, frames: seq<Frame>, i: nat)
    requires i < |Windows(start, frames)|
    ensures Fair(Windows(start, frames)[i], frames)
  {
    hide Close, Step, Tied;
    var n := |frames| - 1;
    var (before, ws) := (Windows(start, frames[..n]), Windows(start, frames));
    FramesFallIntoWindows(start, frames[..n]);
    ClosesFairly(start, Run(start, frames[..n]), before, frames, n);
    if i < |before| {
      WindowsAreFair(start, frames[..n], i);
      assert ws[i] == before[i];
    }
  }

  /** Exactly what the next frame does to the windows: a frame whose clock lies before the last end or more
      than ten seconds behind it discards, one at least a second behind it publishes with itself, and any
      other one only waits. */
  lemma {:induction false} NextWindowExactly(start: uint32, frames: seq<Frame>, f: Frame)
    ensures var (ws, next) := (Windows(start, frames), Windows(start, frames + [f]));
            var last := EndClock(start, ws);
            && (f.now < last || f.now - last > 10_000_000 ==>
                  next == ws + [Window(End(ws), |frames|, last, f.now, None)])
            && (1_000_000 <= f.now - last <= 10_000_000 ==>
                  |next| == |ws| + 1 && next[..|ws|] == ws && next[|ws|].rate.Some?
                  && next[|ws|] == Window(End(ws), |frames| + 1, last, f.now, next[|ws|].rate))
            && (0 <= f.now - last < 1_000_000 ==> next == ws)
  {
    hide Step, Run;
    var (s, ws) := (Run(start, frames), Windows(start, frames));
    assert (frames + [f])[..|frames|] == frames;
    FramesFallIntoWindows(start, frames);
    hide Windows, Chained;
    WrapSmall(f.now - s.lastFpsTime);
    assert Windows(start, frames + [f]) == Close(s, ws, |frames|, f) by { WindowsStep(start, frames, f); }
  }

  lemma {:induction false} WindowsStep(start: uint32, frames: seq<Frame>, f: Frame)
    ensures Windows(start, frames + [f]) == Close(Run(start, frames), Windows(start, frames), |frames|, f)
  {
    assert (frames + [f])[..|frames|] == frames;
  }

  /** The number of frames in published or in discarded windows. */
  function Covered(ws: seq<Window>, published: bool): nat
    requires forall i :: 0 <= i < |ws| ==> ws[i].from <= ws[i].to
  {
    if ws == [] then 0
    else
      var (init, w) := (ws[..|ws| - 1], ws[|ws| - 1]);
      Covered(init, published) + if w.rate.Some? == published then w.to - w.from else 0
  }

  lemma {:induction false} WindowsCover(start: uint32, ws: seq<Window>)
    requires Chained(start, ws)
    ensures Covered(ws, true) + Covered(ws, false) == End(ws)
  {
    if ws != [] {
      var init := ws[..|ws| - 1];
      assert forall i :: 0 <= i < |init| ==> init[..i] == ws[..i];
      WindowsCover(start, init);
    }
  }

  /** Conservation. Every frame is in a published window, was discarded when the clock jumped, or is
      pending; as long as 32 bits can count them, the counters say so and no more errors than frames are
      shown. */
  lemma {:induction false} Conservation(start: uint32, frames: seq<Frame>)
    ensures var (s, ws) := (Run(start, frames), Windows(start, frames));
            && Chained(start, ws)
            && s.frameCount == Wrap(Covered(ws, true) + Covered(ws, false) + s.fpsFrameCount)
            && (|frames| < UINT32_LIMIT ==>
                  && s.frameCount == Covered(ws, true) + Covered(ws, false) + s.fpsFrameCount
                  && s.errorCount <= s.frameCount)
  {
    hide Run, Windows, Covered, Chained;
    var ws := Windows(start, frames);
    FramesFallIntoWindows(start, frames);
    TotalsCountFrames(start, frames);
    WindowsCover(start, ws);
    WrapStep(|frames| - End(ws), End(ws));
  }

  lemma {:induction false} SteadyStep(s: Stats, f: Frame, before: uint32)
    requires 0 <= before - s.lastFpsTime < SECOND && 0 <= f.now - before <= 9 * SECOND
    ensures OutcomeOf(s, f) != Discarded && 0 <= f.now - Step(s, f).lastFpsTime < SECOND
  {
    hide Rate;
    WrapSmall(f.now - s.lastFpsTime);
  }

  /** A stream whose clock does not run backwards and never pauses for more than nine seconds loses no
      frame from its windows. */
  lemma {:induction false} SteadyStreamDiscardsNothing(start: uint32, frames: seq<Frame>)
    requires forall i :: 0 <= i < |frames| ==> 0 <= frames[i].now - Before(start, frames, i) <= 9 * SECOND
    ensures forall i :: 0 <= i < |Windows(start, frames)| ==> Windows(start, frames)[i].rate.Some?
    ensures 0 <= Before(start, frames, |frames|) - Run(start, frames).lastFpsTime < SECOND
  {
    if frames != [] {
      var n := |frames| - 1;
      var init := frames[..n];
      assert forall i :: 0 <= i <= n ==> Before(start, init, i) == Before(start, frames, i);
      SteadyStreamDiscardsNothing(start, init);
      hide Step, OutcomeOf, End;
      SteadyStep(Run(start, init), frames[n], Before(start, frames, n));
    }
  }

  /** The clock before frame `i`. */
  function Before(start: uint32, frames: seq<Frame>, i: nat): uint32
    requires i <= |frames|
  {
    if i == 0 then start else frames[i - 1].now
  }

  /** `n` frames at one moment, of which the first `errors` are errors. */
  function Burst(n: nat, errors: nat): seq<Frame> {
    seq(n, i => Frame(0, i < errors, 0))
  }

  lemma {:induction false} BurstErrors(n: nat, errors: nat)
    ensures Errors(Burst(n, errors)) == if errors < n then errors else n
  {
    if n > 0 {
      assert Burst(n, errors)[..n - 1] == Burst(n - 1, errors);
      BurstErrors(n - 1, errors);
    }
  }

  /** The frame counter shows no less than the error counter after every run of `n` frames. */
  ghost predicate ErrorsWithinFrames(n: nat) {
    forall start, frames :: |frames| == n ==> Run(start, frames).errorCount <= Run(start, frames).frameCount
  }

  /** Past 2^32 frames the error count can exceed the frame count, unless the frame counter stands at its
      largest value. */
  lemma {:induction false} ErrorsPassFrames(n: nat) returns (frames: seq<Frame>)
    requires n >= UINT32_LIMIT && n % UINT32_LIMIT != UINT32_LIMIT - 1
    ensures |frames| == n && Run(0, frames).errorCount > Run(0, frames).frameCount
  {
    hide Run, Errors;
    var errors := n % UINT32_LIMIT + 1;
    frames := Burst(n, errors);
    BurstErrors(n, errors);
    TotalsCountFrames(0, frames);
  }

  /** Exactly the numbers of frames after which errors never exceed frames. */
  lemma {:induction false} ErrorsWithinFramesExactly(n: nat)
    ensures ErrorsWithinFrames(n) <==> n < UINT32_LIMIT || n % UINT32_LIMIT == UINT32_LIMIT - 1
  {
    hide Run;
    if n < UINT32_LIMIT || n % UINT32_LIMIT == UINT32_LIMIT - 1 {
      forall start, frames | |frames| == n
        ensures Run(start, frames).errorCount <= Run(start, frames).frameCount
      {
        TotalsCountFrames(start, frames);
        assert Errors(frames) <= n;
      }
    } else {
      var frames := ErrorsPassFrames(n);
    }
  }

  // ---- What is shown ----

  /** The positions of the errors. */
  function ErrorPositions(frames: seq<Frame>): set<int> {
    set i | 0 <= i < |frames| && frames[i].isError
  }

  lemma {:induction false} ErrorsAre(frames: seq<Frame>)
    ensures Errors(frames) == |ErrorPositions(frames)|
  {
    if frames != [] {
      var (init, n) := (frames[..|frames| - 1], |frames| - 1);
      ErrorsAre(init);
      assert ErrorPositions(frames) == ErrorPositions(init) + (if frames[n].isError then {n} else {});
    }
  }

  lemma {:induction false} GoodBytesStep(frames: seq<Frame>, f: Frame)
    ensures GoodBytes([]) == 0
    ensures GoodBytes(frames + [f]) == GoodBytes(frames) + if f.isError then 0 else f.size
  {
    assert (frames + [f])[..|frames|] == frames;
  }

  /** What a sample of a channel shows after a run, and the copy for status.json. */
  lemma {:induction false} SampleShows(start: uint32, frames: seq<Frame>, clients: nat, now: uint32, wallTime: int)
    ensures var sample := SampleOf(Run(start, frames), clients, now);
            && sample.fps == LastRate(Windows(start, frames))
            && sample.frameCount == |frames| % 0x1_0000_0000
            && sample.errorCount == |ErrorPositions(frames)| % 0x1_0000_0000
            && (sample.frameCount == 0 ==> sample.avgFrameSize == 0)
            && (sample.frameCount > 0 ==>
                  sample.avgFrameSize == GoodBytes(frames) % 0x1_0000_0000 / sample.frameCount)
            && sample.clientCount == clients && sample.timestamp == now
            && MetricsOf(Run(start, frames), wallTime)
               == ChannelMetrics(sample.fps, sample.frameCount, sample.errorCount, sample.avgFrameSize, wallTime)
  {
    hide Run, Windows, LastRate, Errors, GoodBytes, Chained;
    TotalsCountFrames(start, frames);
    FramesFallIntoWindows(start, frames);
    ErrorsAre(frames);
  }

  /** What a collection records for a channel: its own statistics, or zeros before the first frame of any
      channel. */
  lemma {:induction false} CollectedExactly(c: Channels, i: nat, clients: Clients, clocks: Readings)
    requires i < 4 && (c.Some? ==> |c.value| == 4)
    ensures c.None? ==> Collected(c, i, clients, clocks) == Sample(0.0, 0, 0, 0, 0, 0)
    ensures c.Some? ==> Collected(c, i, clients, clocks) == SampleOf(c.value[i], clients(i), clocks(i))
  {
  }

  /** A call for one channel opens the statistics when they are not open yet and leaves the other channels
      alone; a call while the module is off, or for a channel that does not exist, does nothing. */
  lemma {:induction false} UpdatedExactly(c: Channels, enabled: bool, channel: int, f: Frame, clocks: Readings)
    requires c.Some? ==> |c.value| == 4
    ensures !(enabled && channel in {0, 1, 2, 3}) ==> Updated(c, enabled, channel, f, clocks) == c
    ensures enabled && channel in {0, 1, 2, 3} ==>
              var next := Updated(c, enabled, channel, f, clocks);
              && next.Some? && |next.value| == 4
              && forall k :: 0 <= k < 4 ==>
                   var before := if c.Some? then c.value[k] else Run(clocks(k), []);
                   next.value[k] == if k == channel then Step(before, f) else before
  {
    hide Step;
  }
}
