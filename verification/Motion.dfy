/** Motion events of src/modules/motion/motion_module.c: `motion_process_result` (lines 281-358) and
    the zone table that it shares with `motion_setup_ivs` (lines 140-170). Times are in seconds. */
module Motion {
  import opened Common

  // ---- Zones ----

  /** A configured zone; `included` says that its type is "include". */
  datatype Zone = Zone(included: bool, x: int, y: int, width: int, height: int)

  datatype Rect = Rect(x0: int, y0: int, x1: int, y1: int)

  function RectOf(z: Zone): Rect {
    Rect(z.x, z.y, z.x + z.width, z.y + z.height)
  }

  /** The include zones in order, as many as the SDK has regions for. */
  function Included(zones: seq<Zone>, maxRoi: nat): (zs: seq<Zone>)
    ensures |zs| <= maxRoi
  {
    if zones == [] then []
    else
      var (init, last) := (Included(zones[..|zones| - 1], maxRoi), zones[|zones| - 1]);
      if last.included && |init| < maxRoi then init + [last] else init
  }

  lemma {:induction false} IncludedStep(zones: seq<Zone>, maxRoi: nat, i: nat)
    requires i < |zones|
    ensures Included(zones[..i + 1], maxRoi) ==
            var init := Included(zones[..i], maxRoi);
            if zones[i].included && |init| < maxRoi then init + [zones[i]] else init
  {
    assert zones[..i + 1][..i] == zones[..i];
  }

  /** Later zones do not move earlier ones. */
  lemma {:induction false} IncludedPrefix(zones: seq<Zone>, maxRoi: nat, i: nat)
    requires i <= |zones|
    ensures Included(zones[..i], maxRoi) <= Included(zones, maxRoi)
    decreases |zones| - i
  {
    if i < |zones| {
      IncludedStep(zones, maxRoi, i);
      IncludedPrefix(zones, maxRoi, i + 1);
    } else {
      assert zones[..i] == zones;
    }
  }

  /** Once the regions are used up, the remaining zones do not count. */
  lemma {:induction false} IncludedFull(zones: seq<Zone>, maxRoi: nat, i: nat)
    requires i <= |zones| && |Included(zones[..i], maxRoi)| == maxRoi
    ensures Included(zones, maxRoi) == Included(zones[..i], maxRoi)
    decreases |zones| - i
  {
    if i < |zones| {
      IncludedStep(zones, maxRoi, i);
      IncludedFull(zones, maxRoi, i + 1);
    } else {
      assert zones[..i] == zones;
    }
  }

  /** Lines 140-146. */
  method CountRegions(zones: seq<Zone>, maxRoi: nat) returns (count: nat)
    ensures count == |Included(zones, maxRoi)|
  {
    count := 0;
    var i := 0;
    while i < |zones| && count < maxRoi
      invariant 0 <= i <= |zones|
      invariant count == |Included(zones[..i], maxRoi)|
    {
      IncludedStep(zones, maxRoi, i);
      if zones[i].included {
        count := count + 1;
      }
      i := i + 1;
    }
    IncludedDone(zones, maxRoi, i);
  }

  lemma {:induction false} IncludedDone(zones: seq<Zone>, maxRoi: nat, i: nat)
    requires i <= |zones| && (i == |zones| || |Included(zones[..i], maxRoi)| == maxRoi)
    ensures Included(zones[..i], maxRoi) == Included(zones, maxRoi)
  {
    if i < |zones| {
      IncludedFull(zones, maxRoi, i);
    } else {
      assert zones[..i] == zones;
    }
  }

  /** The positions of the include zones. */
  function Includes(zones: seq<Zone>): set<int> {
    set i | 0 <= i < |zones| && zones[i].included
  }

  /** There is a region for every include zone, as many as fit. */
  lemma {:induction false} IncludedCount(zones: seq<Zone>, maxRoi: nat)
    ensures |Included(zones, maxRoi)| == if |Includes(zones)| < maxRoi then |Includes(zones)| else maxRoi
  {
    if zones != [] {
      var (init, n) := (zones[..|zones| - 1], |zones| - 1);
      IncludedCount(init, maxRoi);
      assert Includes(zones) == Includes(init) + (if zones[n].included then {n} else {});
    }
  }

  /** Each include zone has the region behind those of the include zones before it. */
  lemma {:induction false} IncludedAt(zones: seq<Zone>, maxRoi: nat, i: nat)
    requires i < |zones| && zones[i].included && |Included(zones[..i], maxRoi)| < maxRoi
    ensures |Included(zones[..i], maxRoi)| < |Included(zones, maxRoi)|
    ensures Included(zones, maxRoi)[|Included(zones[..i], maxRoi)|] == zones[i]
  {
    hide Included;
    IncludedStep(zones, maxRoi, i);
    IncludedPrefix(zones, maxRoi, i + 1);
  }

  lemma {:induction false} IncludedNone(maxRoi: nat)
    ensures Included([], maxRoi) == []
  {
  }

  /** The region table of `motion_setup_ivs` (lines 149-170): region `k` is the rectangle of the `k`-th
      include zone with the configured sensitivity, and the other regions are left alone. */
  method SetupRegions(zones: seq<Zone>, sensitivity: int, roiRect: array<Rect>, sense: array<int>)
    returns (roiRectCnt: nat)
    requires sense.Length == roiRect.Length
    modifies roiRect, sense
    ensures roiRectCnt == |Included(zones, roiRect.Length)|
    ensures forall k :: 0 <= k < roiRectCnt ==>
              var z := Included(zones, roiRect.Length)[k];
              roiRect[k] == Rect(z.x, z.y, z.x + z.width, z.y + z.height)
    ensures roiRect[roiRectCnt..] == old(roiRect[roiRectCnt..])
    ensures forall k :: 0 <= k < roiRectCnt ==> sense[k] == sensitivity
    ensures sense[roiRectCnt..] == old(sense[roiRectCnt..])
  {
    hide RectOf, Included;
    var maxRoi := roiRect.Length;
    roiRectCnt := CountRegions(zones, maxRoi);
    IncludedNone(maxRoi);
    var roiIndex, i := 0, 0;
    while i < |zones| && roiIndex < maxRoi
      invariant 0 <= i <= |zones|
      invariant roiIndex == |Included(zones[..i], maxRoi)|
      invariant forall k :: 0 <= k < roiIndex ==> roiRect[k] == RectOf(Included(zones[..i], maxRoi)[k])
      invariant roiRect[roiIndex..] == old(roiRect[roiIndex..])
      invariant forall k :: 0 <= k < roiIndex ==> sense[k] == sensitivity
      invariant sense[roiIndex..] == old(sense[roiIndex..])
    {
      IncludedStep(zones, maxRoi, i);
      if zones[i].included {
        sense[roiIndex] := sensitivity;
        roiRect[roiIndex] := RectOf(zones[i]);
        roiIndex := roiIndex + 1;
      }
      i := i + 1;
    }
    IncludedDone(zones, maxRoi, i);
    forall k | 0 <= k < roiRectCnt
      ensures var z := Included(zones, maxRoi)[k];
              roiRect[k] == Rect(z.x, z.y, z.x + z.width, z.y + z.height)
    {
      Corners(Included(zones, maxRoi)[k]);
    }
  }

  lemma {:induction false} Corners(z: Zone)
    ensures RectOf(z) == Rect(z.x, z.y, z.x + z.width, z.y + z.height)
  {
  }

  /** Lines 290-305: a result reports motion exactly when one of the regions set up for the zones is
      flagged. `retRoi` is the SDK's array with a flag for each of its `maxRoi` regions. */
  method MotionInAnyRoi(zones: seq<Zone>, retRoi: seq<int>) returns (motion: bool)
    ensures motion <==> exists k :: 0 <= k < |Included(zones, |retRoi|)| && retRoi[k] == 1
  {
    var maxRoi := |retRoi|;
    var roiIndex, i := 0, 0;
    while i < |zones| && roiIndex < maxRoi
      invariant 0 <= i <= |zones|
      invariant roiIndex == |Included(zones[..i], maxRoi)|
      invariant forall k :: 0 <= k < roiIndex ==> retRoi[k] != 1
    {
      IncludedStep(zones, maxRoi, i);
      if zones[i].included {
        if retRoi[roiIndex] == 1 {
          IncludedPrefix(zones, maxRoi, i + 1);
          return true;
        }
        roiIndex := roiIndex + 1;
      }
      i := i + 1;
    }
    IncludedDone(zones, maxRoi, i);
    return false;
  }

  // ---- The event machine ----

  /** `script` says that a script path is configured. */
  datatype Config = Config(cooldown: nat, minTime: nat, script: bool)

  datatype State = State(
    detected: bool, startExecuted: bool, lastMotionTime: nat, motionStartTime: nat, motionEvents: nat)

  /** The zeroed module state. */
  const INITIAL: State := State(false, false, 0, 0, 0)

  /** A script call. */
  datatype Call = Start(at: nat) | Stop(at: nat)

  datatype Outcome = Outcome(state: State, calls: seq<Call>)

  /** Difference of two `unsigned long` times. */
  function Elapsed(now: nat, since: nat): nat {
    if now >= since then now - since else (now - since) % UINT32_LIMIT
  }

  /** Time passed, as the 32-bit clock sees it when it has wrapped around. */
  lemma {:induction false} ElapsedIs(now: nat, since: nat)
    ensures now >= since ==> Elapsed(now, since) == now - since
    ensures since - 0x1_0000_0000 <= now < since ==> Elapsed(now, since) == now - since + 0x1_0000_0000
  {
  }

  function StartEvent(cfg: Config, s: State, now: nat): State {
    if s.detected then s
    else s.(detected := true, startExecuted := false, motionStartTime := now, motionEvents := s.motionEvents + 1)
  }

  /** One result at time `now`. */
  function Step(cfg: Config, s: State, now: nat, motion: bool): Outcome {
    if motion then
      if s.lastMotionTime > 0 && Elapsed(now, s.lastMotionTime) < cfg.cooldown then Outcome(s, [])
      else
        var e := StartEvent(cfg, s, now);
        var call := !e.startExecuted && cfg.script;
        Outcome(e.(startExecuted := e.startExecuted || call, lastMotionTime := now),
                if call then [Start(now)] else [])
    else if s.detected && Elapsed(now, s.motionStartTime) >= cfg.minTime then
      Outcome(s.(detected := false), if cfg.script then [Stop(now)] else [])
    else Outcome(s, [])
  }

  /** The module state, and the script calls made so far. */
  class Detector {
    const cfg: Config
    const zones: seq<Zone>
    var detected: bool
    var startExecuted: bool
    var lastMotionTime: nat
    var motionStartTime: nat
    var motionEvents: nat
    ghost var calls: seq<Call>

    function View(): State
      reads this
    {
      State(detected, startExecuted, lastMotionTime, motionStartTime, motionEvents)
    }

    constructor (cfg: Config, zones: seq<Zone>)
      ensures this.cfg == cfg && this.zones == zones && View() == INITIAL && calls == []
    {
      this.cfg, this.zones := cfg, zones;
      detected, startExecuted, lastMotionTime, motionStartTime, motionEvents := false, false, 0, 0, 0;
      calls := [];
    }

    /** `motion_process_result`. */
    method ProcessResult(retRoi: seq<int>, now: nat)
      modifies this
      ensures var motion := exists k :: 0 <= k < |Included(zones, |retRoi|)| && retRoi[k] == 1;
              var outcome := Step(cfg, old(View()), now, motion);
              View() == outcome.state && calls == old(calls) + outcome.calls
    {
      var motionInAnyRoi := MotionInAnyRoi(zones, retRoi);
      if motionInAnyRoi {
        if lastMotionTime > 0 && Elapsed(now, lastMotionTime) < cfg.cooldown {
          return;
        }
        if !detected {
          detected := true;
          startExecuted := false;
          motionStartTime := now;
          motionEvents := motionEvents + 1;
        }
        if !startExecuted && cfg.script {
          startExecuted := true;
          calls := calls + [Start(now)];
        }
        lastMotionTime := now;
      } else if detected {
        var duration := Elapsed(now, motionStartTime);
        if duration >= cfg.minTime {
          detected := false;
          if cfg.script {
            calls := calls + [Stop(now)];
          }
        }
      }
    }
  }

  // ---- Runs ----

  /** When a result arrived and whether it reports motion. */
  datatype Observation = Observation(now: nat, motion: bool)

  /** The clock starts after zero and does not run backwards. */
  ghost predicate Clocked(os: seq<Observation>) {
    && (forall i :: 0 <= i < |os| ==> os[i].now >= 1)
    && forall i, j :: 0 <= i < j < |os| ==> os[i].now <= os[j].now
  }

  /** State and script calls after the results `os`. */
  function Run(cfg: Config, os: seq<Observation>): Outcome {
    if os == [] then Outcome(INITIAL, [])
    else
      var before := Run(cfg, os[..|os| - 1]);
      var o := os[|os| - 1];
      var step := Step(cfg, before.state, o.now, o.motion);
      Outcome(step.state, before.calls + step.calls)
  }

  function Max(a: nat, b: nat): nat {
    if a > b then a else b
  }

  /** Start and stop calls alternate, beginning with a start. */
  ghost predicate Alternates(calls: seq<Call>) {
    forall k :: 0 <= k < |calls| ==> (calls[k].Start? <==> k % 2 == 0)
  }

  /** A stop comes at least the minimum time after its start; starts keep their distance. */
  ghost predicate Spaced(cfg: Config, calls: seq<Call>) {
    && (forall k :: 0 < k < |calls| && k % 2 == 1 ==> calls[k].at - calls[k - 1].at >= cfg.minTime)
    && (forall k :: 1 < k < |calls| && k % 2 == 0 ==> calls[k].at - calls[k - 2].at >= Max(cfg.cooldown, cfg.minTime))
  }

  /** What ties the state to the calls made so far. */
  ghost predicate Tied(s: State, calls: seq<Call>) {
    && |calls| == 2 * s.motionEvents - (if s.detected then 1 else 0)
    && (s.detected ==> s.startExecuted && calls[|calls| - 1] == Start(s.motionStartTime))
    && (s.motionEvents > 0 ==> s.lastMotionTime >= 1 && calls[2 * s.motionEvents - 2].at <= s.lastMotionTime)
  }

  /** The invariant of a run with a script, at time `now`. */
  ghost predicate Consistent(cfg: Config, s: State, calls: seq<Call>, now: nat) {
    && Alternates(calls) && Spaced(cfg, calls) && Tied(s, calls)
    && s.lastMotionTime <= now && s.motionStartTime <= now
    && forall k :: 0 <= k < |calls| ==> calls[k].at <= now
  }

  lemma {:induction false} StepConsistent(cfg: Config, s: State, calls: seq<Call>, then_: nat, now: nat, motion: bool)
    requires cfg.script && Consistent(cfg, s, calls, then_) && then_ <= now && now >= 1
    ensures Consistent(cfg, Step(cfg, s, now, motion).state, calls + Step(cfg, s, now, motion).calls, now)
  {
    hide Max, Alternates, Spaced;
    var step := Step(cfg, s, now, motion);
    if step.calls == [] {
      assert calls + [] == calls;
    } else if motion {
      assert !s.detected && step.calls == [Start(now)];
      StartConsistent(cfg, s, calls, then_, now);
    } else {
      StopConsistent(cfg, s, calls, then_, now);
    }
  }

  /** One more call at the end. */
  lemma {:induction false} OneMoreCall(cfg: Config, calls: seq<Call>, c: Call)
    requires Alternates(calls) && Spaced(cfg, calls) && (c.Start? <==> |calls| % 2 == 0)
    requires c.Stop? ==> c.at - calls[|calls| - 1].at >= cfg.minTime
    requires c.Start? && |calls| > 1 ==> c.at - calls[|calls| - 2].at >= Max(cfg.cooldown, cfg.minTime)
    ensures Alternates(calls + [c]) && Spaced(cfg, calls + [c])
  {
    hide Max;
  }

  lemma {:induction false} StopConsistent(cfg: Config, s: State, calls: seq<Call>, then_: nat, now: nat)
    requires cfg.script && Consistent(cfg, s, calls, then_) && then_ <= now && s.detected
    requires now - s.motionStartTime >= cfg.minTime
    ensures Consistent(cfg, s.(detected := false), calls + [Stop(now)], now)
  {
    hide Max, Alternates, Spaced;
    OneMoreCall(cfg, calls, Stop(now));
  }

  lemma {:induction false} MaxIsReached(cfg: Config, d: int)
    ensures d >= cfg.cooldown && d >= cfg.minTime ==> d >= Max(cfg.cooldown, cfg.minTime)
  {
  }

  /** A new event keeps its distance to the one before. */
  lemma {:induction false} StartConsistent(cfg: Config, s: State, calls: seq<Call>, then_: nat, now: nat)
    requires cfg.script && Consistent(cfg, s, calls, then_) && then_ <= now && now >= 1 && !s.detected
    requires s.lastMotionTime > 0 ==> now - s.lastMotionTime >= cfg.cooldown
    ensures Consistent(cfg, Step(cfg, s, now, true).state, calls + [Start(now)], now)
  {
    var n := |calls|;
    assert n > 0 ==> calls[n - 1].at - calls[n - 2].at >= cfg.minTime;
    hide Max, Alternates, Spaced;
    if n > 0 {
      MaxIsReached(cfg, now - calls[n - 2].at);
    }
    OneMoreCall(cfg, calls, Start(now));
  }

  function CountStarts(calls: seq<Call>): nat {
    if calls == [] then 0 else CountStarts(calls[..|calls| - 1]) + if calls[|calls| - 1].Start? then 1 else 0
  }

  lemma {:induction false} AlternatingStarts(calls: seq<Call>)
    requires Alternates(calls)
    ensures CountStarts(calls) == (|calls| + 1) / 2
  {
    if calls != [] {
      AlternatingStarts(calls[..|calls| - 1]);
    }
  }

  lemma {:induction false} RunConsistent(cfg: Config, os: seq<Observation>)
    requires Clocked(os) && cfg.script
    ensures Consistent(cfg, Run(cfg, os).state, Run(cfg, os).calls, if os == [] then 0 else os[|os| - 1].now)
  {
    if os != [] {
      var (init, o) := (os[..|os| - 1], os[|os| - 1]);
      RunConsistent(cfg, init);
      hide Step;
      StepConsistent(cfg, Run(cfg, init).state, Run(cfg, init).calls,
        if init == [] then 0 else init[|init| - 1].now, o.now, o.motion);
    }
  }

  /** Over every run with a script: the calls are `(start stop)* start?`, there are as many starts as
      counted events, a stop comes at least the minimum time after its start, and starts are at least
      the larger of cooldown and minimum time apart. */
  lemma {:induction false} MotionRuns(cfg: Config, os: seq<Observation>)
    requires Clocked(os) && cfg.script
    ensures var calls := Run(cfg, os).calls;
            && Alternates(calls)
            && CountStarts(calls) == Run(cfg, os).state.motionEvents
            && Spaced(cfg, calls)
  {
    RunConsistent(cfg, os);
    AlternatingStarts(Run(cfg, os).calls);
  }

  // ---- What each result does ----

  /** Result `i` reports motion, and no accepted result before it lies within the cooldown. */
  predicate Accepted(cooldown: nat, os: seq<Observation>, i: nat)
    requires i < |os|
  {
    os[i].motion && forall k :: 0 <= k < i && Accepted(cooldown, os, k) ==> os[i].now - os[k].now >= cooldown
  }

  lemma {:induction false} AcceptedRule(cooldown: nat, os: seq<Observation>, i: nat)
    requires i < |os|
    ensures Accepted(cooldown, os, i) <==>
              os[i].motion && forall k :: 0 <= k < i && Accepted(cooldown, os, k) ==> os[i].now - os[k].now >= cooldown
  {
  }

  lemma {:induction false} AcceptedPrefix(cooldown: nat, os: seq<Observation>, n: nat, i: nat)
    requires i < n <= |os|
    ensures Accepted(cooldown, os[..n], i) <==> Accepted(cooldown, os, i)
  {
    forall k: nat | k < i
      ensures Accepted(cooldown, os[..n], k) <==> Accepted(cooldown, os, k)
    {
      AcceptedPrefix(cooldown, os, n, k);
    }
  }

  /** The time of the last accepted result. */
  ghost predicate LastAcceptedAt(cooldown: nat, os: seq<Observation>, t: nat) {
    && (forall k :: 0 <= k < |os| && Accepted(cooldown, os, k) ==> os[k].now <= t && t > 0)
    && (t > 0 ==> exists k :: 0 <= k < |os| && Accepted(cooldown, os, k) && os[k].now == t)
  }

  /** The cooldown test of the code is the rule for acceptance. */
  lemma {:induction false} CooldownTest(cooldown: nat, os: seq<Observation>, t: nat, o: Observation)
    requires LastAcceptedAt(cooldown, os, t) && Clocked(os + [o])
    ensures (t == 0 || o.now - t >= cooldown) <==>
              forall k :: 0 <= k < |os| && Accepted(cooldown, os, k) ==> o.now - os[k].now >= cooldown
    ensures Accepted(cooldown, os + [o], |os|) <==> o.motion && (t == 0 || o.now - t >= cooldown)
    ensures t <= o.now
  {
    var all := os + [o];
    assert all[..|os|] == os && all[|os|] == o;
    AcceptedRule(cooldown, all, |os|);
    forall k: nat | k < |os|
      ensures Accepted(cooldown, all, k) <==> Accepted(cooldown, os, k)
      ensures all[k] == os[k] && os[k].now <= o.now
    {
      AcceptedPrefix(cooldown, all, |os|, k);
    }
  }

  lemma {:induction false} RunStep(cfg: Config, os: seq<Observation>, o: Observation)
    ensures var (before, step) := (Run(cfg, os), Step(cfg, Run(cfg, os).state, o.now, o.motion));
            Run(cfg, os + [o]) == Outcome(step.state, before.calls + step.calls)
  {
    assert (os + [o])[..|os|] == os;
  }

  lemma {:induction false} LastMotionIs(cfg: Config, os: seq<Observation>)
    requires Clocked(os)
    ensures LastAcceptedAt(cfg.cooldown, os, Run(cfg, os).state.lastMotionTime)
  {
    hide Accepted;
    if os != [] {
      var (init, o) := (os[..|os| - 1], os[|os| - 1]);
      assert os == init + [o];
      LastMotionIs(cfg, init);
      RunStep(cfg, init, o);
      CooldownTest(cfg.cooldown, init, Run(cfg, init).state.lastMotionTime, o);
      forall k: nat | k < |init|
        ensures Accepted(cfg.cooldown, os, k) <==> Accepted(cfg.cooldown, init, k)
      {
        AcceptedPrefix(cfg.cooldown, os, |init|, k);
      }
    }
  }

  /** The calls of one step, in terms of the calls before. */
  lemma {:induction false} StepCalls(cfg: Config, s: State, calls: seq<Call>, then_: nat, o: Observation)
    requires cfg.script && Consistent(cfg, s, calls, then_) && then_ <= o.now
    ensures Step(cfg, s, o.now, o.motion).calls ==
            if |calls| % 2 == 0 then
              if o.motion && (s.lastMotionTime == 0 || o.now - s.lastMotionTime >= cfg.cooldown) then [Start(o.now)] else []
            else
              if !o.motion && o.now - calls[|calls| - 1].at >= cfg.minTime then [Stop(o.now)] else []
  {
    hide Alternates, Spaced;
  }

  /** Exactly which script call a result makes, from the calls and results so far: a motion result outside
      the cooldown starts when no event is open, and a result without motion stops an open event that has
      lasted the minimum time. */
  lemma {:induction false} NextCallExactly(cfg: Config, os: seq<Observation>, o: Observation)
    requires Clocked(os + [o]) && cfg.script
    ensures var (before, after) := (Run(cfg, os).calls, Run(cfg, os + [o]).calls);
            after == before +
              if |before| % 2 == 0 then
                if o.motion && forall k :: 0 <= k < |os| && Accepted(cfg.cooldown, os, k) ==>
                     o.now - os[k].now >= cfg.cooldown
                then [Start(o.now)] else []
              else
                if !o.motion && o.now - before[|before| - 1].at >= cfg.minTime then [Stop(o.now)] else []
  {
    ClockedPrefix(os, o);
    hide Run, Accepted, Consistent, Step, LastAcceptedAt, Clocked;
    RunConsistent(cfg, os);
    LastMotionIs(cfg, os);
    RunStep(cfg, os, o);
    CooldownTest(cfg.cooldown, os, Run(cfg, os).state.lastMotionTime, o);
    StepCalls(cfg, Run(cfg, os).state, Run(cfg, os).calls, if os == [] then 0 else os[|os| - 1].now, o);
  }

  lemma {:induction false} ClockedPrefix(os: seq<Observation>, o: Observation)
    requires Clocked(os + [o])
    ensures Clocked(os) && (os != [] ==> os[|os| - 1].now <= o.now) && o.now >= 1
  {
    assert forall i :: 0 <= i < |os| ==> (os + [o])[i] == os[i];
    assert (os + [o])[|os|] == o;
  }

  /** The script changes nothing but the calls: events are counted by the same rule without one. */
  lemma {:induction false} EventsWithoutScript(cfg: Config, os: seq<Observation>)
    requires Clocked(os)
    ensures Run(cfg, os).state.(startExecuted := false)
         == Run(cfg.(script := true), os).state.(startExecuted := false)
    ensures Run(cfg, os).state.motionEvents == CountStarts(Run(cfg.(script := true), os).calls)
  {
    MotionRuns(cfg.(script := true), os);
    if os != [] {
      EventsWithoutScript(cfg, os[..|os| - 1]);
    }
  }

  /** Starts that are `n` events apart are `n` distances apart. */
  lemma {:induction false} StartsSpread(cfg: Config, calls: seq<Call>, i: nat, j: nat)
    requires Spaced(cfg, calls) && i <= j && 2 * j < |calls|
    ensures calls[2 * j].at - calls[2 * i].at >= (j - i) * Max(cfg.cooldown, cfg.minTime)
    decreases j
  {
    if i < j {
      StartsSpread(cfg, calls, i, j - 1);
      assert calls[2 * j].at - calls[2 * j - 2].at >= Max(cfg.cooldown, cfg.minTime);
      assert (j - i) * Max(cfg.cooldown, cfg.minTime) ==
             (j - 1 - i) * Max(cfg.cooldown, cfg.minTime) + Max(cfg.cooldown, cfg.minTime);
    }
  }

  /** The events `i` to `j` that start within a span of `span` seconds are at most 1 + span / cooldown. */
  lemma {:induction false} EventRate(cfg: Config, os: seq<Observation>, i: nat, j: nat, span: nat)
    requires Clocked(os) && cfg.script && cfg.cooldown > 0
    requires i <= j && 2 * j < |Run(cfg, os).calls|
    requires Run(cfg, os).calls[2 * j].at - Run(cfg, os).calls[2 * i].at <= span
    ensures j - i + 1 <= 1 + span / cfg.cooldown
  {
    hide Run, Alternates;
    MotionRuns(cfg, os);
    StartsSpread(cfg, Run(cfg, os).calls, i, j);
    AtMostQuotient(j - i, cfg.cooldown, Max(cfg.cooldown, cfg.minTime), span);
  }

  lemma {:induction false} TimesMonotone(n: nat, d: nat, e: nat)
    ensures d <= e ==> n * d <= n * e && d * n <= e * n
  {
  }

  lemma {:induction false} QuotientTimes(span: nat, d: nat)
    requires d > 0
    ensures span < (span / d + 1) * d
  {
    assert span == span / d * d + span % d;
  }

  lemma {:induction false} AtMostQuotient(n: nat, d: nat, e: nat, span: nat)
    requires 0 < d <= e && n * e <= span
    ensures n <= span / d
  {
    TimesMonotone(n, d, e);
    TimesMonotone(d, span / d + 1, n);
    QuotientTimes(span, d);
  }

  /** Without a script path nothing is called. */
  lemma {:induction false} NoScriptNoCalls(cfg: Config, os: seq<Observation>)
    requires !cfg.script
    ensures Run(cfg, os).calls == []
  {
    if os != [] {
      NoScriptNoCalls(cfg, os[..|os| - 1]);
    }
  }
}
