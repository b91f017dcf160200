/** The day/night controller of src/modules/photosensing/photosensing_module.c: one iteration of
    `photosensing_control_thread` (lines 539-666) as a step, and what holds over every run of polls. */
module Photosensing {
  import opened Common

  /** `photosensing_module_config_t`, as far as the control loop reads it. */
  datatype Config = Config(
    nightIsoThreshold: real,
    nightCountThreshold: int,
    dayIsoThreshold: real,
    dayGbGainOffset: real,
    dayGbGainThreshold: real,
    dayIsoSecondaryThreshold: real,
    dayCountThreshold: int,
    ircutEnabled: bool,
    ircutDayState: int,
    ircutNightState: int,
    gbGainRecordInit: real,
    grGainRecordInit: real)

  /** The rules of `photosensing_module_config_validate` that matter here. */
  predicate Validated(cfg: Config) {
    cfg.nightIsoThreshold > 0.0 && cfg.dayIsoThreshold > 0.0 && cfg.nightCountThreshold > 0 && cfg.dayCountThreshold > 0
  }

  datatype Mode = Day | Night

  /** White balance gains. */
  datatype Gains = Gains(gb: real, gr: real)

  const SAMPLES: nat := 20

  /** What the ISP answers during one poll: exposure, gains, and the gains sampled in night mode. */
  datatype Reading = Reading(iso: nat, gains: Gains, samples: seq<Gains>)

  predicate ReadingSane(r: Reading) {
    |r.samples| == SAMPLES
  }

  datatype State = State(
    currentMode: Mode,
    ispMode: Mode,
    ircutStatus: bool,
    dayCount: int,
    nightCount: int,
    gbGainRecord: real,
    grGainRecord: real,
    modeSwitches: nat,
    dayToNight: nat,
    nightToDay: nat)

  /** The state after `setup_photosensing_defaults` and `photosensing_module_start`. */
  function Initial(cfg: Config): State {
    State(Day, Day, if cfg.ircutEnabled then cfg.ircutDayState == 0 else true,
          0, 0, cfg.gbGainRecordInit, cfg.grGainRecordInit, 0, 0, 0)
  }

  // ---- One poll ----

  predicate NightReading(cfg: Config, r: Reading) {
    r.iso as real > cfg.nightIsoThreshold
  }

  /** The smallest element. */
  function MinOf(s: seq<real>): (m: real)
    requires s != []
    ensures m in s
    ensures forall i :: 0 <= i < |s| ==> m <= s[i]
  {
    if |s| == 1 then s[0]
    else
      var m := MinOf(s[..|s| - 1]);
      if m > s[|s| - 1] then s[|s| - 1] else m
  }

  function GbOf(gs: seq<Gains>): (s: seq<real>)
    ensures |s| == |gs| && forall i :: 0 <= i < |gs| ==> s[i] == gs[i].gb
  {
    seq(|gs|, i requires 0 <= i < |gs| => gs[i].gb)
  }

  function GrOf(gs: seq<Gains>): (s: seq<real>)
    ensures |s| == |gs| && forall i :: 0 <= i < |gs| ==> s[i] == gs[i].gr
  {
    seq(|gs|, i requires 0 <= i < |gs| => gs[i].gr)
  }

  /** Lines 572-588: a switch to night mode, when the ISP is not there yet. */
  function EnterNight(cfg: Config, s: State): State {
    if s.ispMode == Night then s
    else
      var counted := if s.currentMode == Day then s.(dayToNight := s.dayToNight + 1, modeSwitches := s.modeSwitches + 1) else s;
      counted.(ispMode := Night, currentMode := Night,
               ircutStatus := if cfg.ircutEnabled then cfg.ircutNightState == 0 else s.ircutStatus)
  }

  /** Lines 629-645: a switch to day mode. */
  function EnterDay(cfg: Config, s: State): State {
    if s.ispMode == Day then s
    else
      var counted := if s.currentMode == Night then s.(nightToDay := s.nightToDay + 1, modeSwitches := s.modeSwitches + 1) else s;
      counted.(ispMode := Day, currentMode := Day,
               ircutStatus := if cfg.ircutEnabled then cfg.ircutDayState == 0 else s.ircutStatus)
  }

  /** Night is confirmed in this poll: the streak including this reading is long enough. */
  predicate NightConfirmed(cfg: Config, s: State, r: Reading) {
    NightReading(cfg, r) && s.nightCount + 1 > cfg.nightCountThreshold
  }

  /** The night half of a poll. */
  function NightHalf(cfg: Config, s: State, r: Reading): State
    requires ReadingSane(r)
  {
    var counted := s.(nightCount := if NightReading(cfg, r) then s.nightCount + 1 else 0);
    if NightConfirmed(cfg, s, r) then
      EnterNight(cfg, counted).(gbGainRecord := MinOf(GbOf(r.samples)), grGainRecord := MinOf(GrOf(r.samples)))
    else counted
  }

  /** The blue gain that the day half looks at: the last one read. */
  function LastGb(cfg: Config, s: State, r: Reading): real
    requires ReadingSane(r)
  {
    if NightConfirmed(cfg, s, r) then r.samples[SAMPLES - 1].gb else r.gains.gb
  }

  /** The three conditions for looking at day mode at all. */
  predicate DayGate(cfg: Config, s: State, iso: nat, gb: real) {
    iso as real < cfg.dayIsoThreshold && s.ircutStatus && gb > s.gbGainRecord + cfg.dayGbGainOffset
  }

  predicate DayCounts(cfg: Config, s: State, iso: nat, gb: real) {
    DayGate(cfg, s, iso, gb) && (iso as real < cfg.dayIsoSecondaryThreshold || gb > cfg.dayGbGainThreshold)
  }

  /** The day half of a poll. */
  function DayHalf(cfg: Config, s: State, iso: nat, gb: real): State {
    var counted := s.(dayCount := if DayCounts(cfg, s, iso, gb) then s.dayCount + 1 else 0);
    if DayGate(cfg, s, iso, gb) && counted.dayCount > cfg.dayCountThreshold then EnterDay(cfg, counted) else counted
  }

  /** One iteration of the control loop. */
  function Step(cfg: Config, s: State, r: Reading): State
    requires ReadingSane(r)
  {
    DayHalf(cfg, NightHalf(cfg, s, r), r.iso, LastGb(cfg, s, r))
  }

  /** The poll counts towards day mode. */
  predicate DayQualifies(cfg: Config, s: State, r: Reading)
    requires ReadingSane(r)
  {
    DayCounts(cfg, NightHalf(cfg, s, r), r.iso, LastGb(cfg, s, r))
  }

  /** What one poll does to the counters and the mode. */
  lemma {:induction false} StepEffects(cfg: Config, s: State, r: Reading)
    requires ReadingSane(r)
    ensures var t := Step(cfg, s, r);
            && t.nightCount == (if NightReading(cfg, r) then s.nightCount + 1 else 0)
            && t.dayCount == (if DayQualifies(cfg, s, r) then s.dayCount + 1 else 0)
            && (t.dayToNight != s.dayToNight ==> NightReading(cfg, r) && t.nightCount > cfg.nightCountThreshold)
            && (t.nightToDay != s.nightToDay ==>
                  r.iso as real < cfg.dayIsoThreshold && t.dayCount > cfg.dayCountThreshold)
            && (DayQualifies(cfg, s, r) ==> r.iso as real < cfg.dayIsoThreshold)
            && t.modeSwitches - s.modeSwitches == t.dayToNight - s.dayToNight + t.nightToDay - s.nightToDay
            && s.dayToNight <= t.dayToNight <= s.dayToNight + 1 && s.nightToDay <= t.nightToDay <= s.nightToDay + 1
  {
    hide MinOf, GbOf, GrOf, LastGb;
  }

  // ---- The loop body ----

  /** What the statistics show of the last poll; the counters are those from before it. */
  datatype Shown = Shown(iso: nat, gbGain: real, grGain: real, dayCount: int, nightCount: int)

  class Controller {
    const cfg: Config
    var currentMode: Mode
    var ispMode: Mode
    var ircutStatus: bool
    var dayCount: int
    var nightCount: int
    var gbGainRecord: real
    var grGainRecord: real
    var modeSwitches: nat
    var dayToNight: nat
    var nightToDay: nat
    var shown: Shown

    function View(): State
      reads this
    {
      State(currentMode, ispMode, ircutStatus, dayCount, nightCount, gbGainRecord, grGainRecord,
            modeSwitches, dayToNight, nightToDay)
    }

    /** `setup_photosensing_defaults`, then lines 129-143 of `photosensing_module_start`. */
    constructor (cfg: Config)
      ensures this.cfg == cfg && View() == Initial(cfg)
    {
      this.cfg := cfg;
      currentMode := Day;
      ircutStatus := true;
      dayCount, nightCount := 0, 0;
      gbGainRecord, grGainRecord := cfg.gbGainRecordInit, cfg.grGainRecordInit;
      modeSwitches, dayToNight, nightToDay := 0, 0, 0;
      shown := Shown(0, 0.0, 0.0, 0, 0);
      ispMode := Day;
      if cfg.ircutEnabled {
        ircutStatus := cfg.ircutDayState == 0;
      }
    }

    /** Lines 592-609: the records become the minima of the samples. */
    method SampleGains(samples: seq<Gains>) returns (gbGain: real)
      requires |samples| == SAMPLES
      modifies this`gbGainRecord, this`grGainRecord
      ensures gbGainRecord == MinOf(GbOf(samples)) && grGainRecord == MinOf(GrOf(samples))
      ensures gbGain == samples[SAMPLES - 1].gb
    {
      var gbGainBuf, grGainBuf := 0.0, 0.0;
      gbGain := 0.0;
      for i := 0 to SAMPLES
        invariant i > 0 ==> gbGainBuf == gbGainRecord == MinOf(GbOf(samples)[..i])
        invariant i > 0 ==> grGainBuf == grGainRecord == MinOf(GrOf(samples)[..i])
        invariant i > 0 ==> gbGain == samples[i - 1].gb
      {
        gbGain := samples[i].gb;
        var grGain := samples[i].gr;
        if i == 0 {
          gbGainBuf := gbGain;
          grGainBuf := grGain;
        }
        gbGainBuf := if gbGainBuf > gbGain then gbGain else gbGainBuf;
        grGainBuf := if grGainBuf > grGain then grGain else grGainBuf;
        gbGainRecord := gbGainBuf;
        grGainRecord := grGainBuf;
        assert GbOf(samples)[..i + 1][..i] == GbOf(samples)[..i];
        assert GrOf(samples)[..i + 1][..i] == GrOf(samples)[..i];
      }
      assert GbOf(samples)[..SAMPLES] == GbOf(samples);
      assert GrOf(samples)[..SAMPLES] == GrOf(samples);
    }

    /** Lines 568-613; `gbGain` is the gain read last. */
    method PollNight(r: Reading) returns (gbGain: real)
      requires ReadingSane(r)
      modifies this
      ensures View() == NightHalf(cfg, old(View()), r)
      ensures gbGain == LastGb(cfg, old(View()), r)
      ensures shown == old(shown)
    {
      hide MinOf, GbOf, GrOf;
      gbGain := r.gains.gb;
      if r.iso as real > cfg.nightIsoThreshold {
        nightCount := nightCount + 1;
        if nightCount > cfg.nightCountThreshold {
          if ispMode != Night {
            ispMode := Night;
            if cfg.ircutEnabled {
              ircutStatus := cfg.ircutNightState == 0;
            }
            if currentMode == Day {
              dayToNight := dayToNight + 1;
              modeSwitches := modeSwitches + 1;
            }
            currentMode := Night;
          }
          gbGain := SampleGains(r.samples);
        }
      } else {
        nightCount := 0;
      }
    }

    /** Lines 616-649. */
    method PollDay(iso: nat, gbGain: real)
      modifies this
      ensures View() == DayHalf(cfg, old(View()), iso, gbGain)
      ensures shown == old(shown)
    {
      if iso as real < cfg.dayIsoThreshold && ircutStatus && gbGain > gbGainRecord + cfg.dayGbGainOffset {
        if iso as real < cfg.dayIsoSecondaryThreshold || gbGain > cfg.dayGbGainThreshold {
          dayCount := dayCount + 1;
        } else {
          dayCount := 0;
        }
        if dayCount > cfg.dayCountThreshold {
          if ispMode != Day {
            ispMode := Day;
            if cfg.ircutEnabled {
              ircutStatus := cfg.ircutDayState == 0;
            }
            if currentMode == Night {
              nightToDay := nightToDay + 1;
              modeSwitches := modeSwitches + 1;
            }
            currentMode := Day;
          }
        }
      } else {
        dayCount := 0;
      }
    }

    /** Lines 539-649: one poll. Without an answer of the ISP the loop ends and nothing has changed. */
    method Poll(reading: Option<Reading>) returns (running: bool)
      requires reading.Some? ==> ReadingSane(reading.value)
      modifies this
      ensures running <==> reading.Some?
      ensures !running ==> View() == old(View()) && shown == old(shown)
      ensures running ==>
                var r := reading.value;
                && View() == Step(cfg, old(View()), r)
                && shown == Shown(r.iso, r.gains.gb, r.gains.gr, old(dayCount), old(nightCount))
    {
      hide NightHalf, DayHalf, LastGb;
      if reading.None? {
        return false;
      }
      var r := reading.value;
      shown := Shown(r.iso, r.gains.gb, r.gains.gr, dayCount, nightCount);
      var gbGain := PollNight(r);
      PollDay(r.iso, gbGain);
      return true;
    }
  }

  // ---- Runs ----

  ghost predicate AllSane(rs: seq<Reading>) {
    forall i :: 0 <= i < |rs| ==> ReadingSane(rs[i])
  }

  /** The state after the polls `rs`. */
  function Run(cfg: Config, s: State, rs: seq<Reading>): State
    requires AllSane(rs)
  {
    if rs == [] then s else Step(cfg, Run(cfg, s, rs[..|rs| - 1]), rs[|rs| - 1])
  }

  /** The state after the first `k` polls since the module was started. */
  function After(cfg: Config, rs: seq<Reading>, k: nat): State
    requires AllSane(rs) && k <= |rs|
  {
    Run(cfg, Initial(cfg), rs[..k])
  }

  lemma {:induction false} AfterStep(cfg: Config, rs: seq<Reading>, k: nat)
    requires AllSane(rs) && k < |rs|
    ensures After(cfg, rs, k + 1) == Step(cfg, After(cfg, rs, k), rs[k])
  {
    assert rs[..k + 1][..k] == rs[..k];
  }

  /** How a run begins. */
  lemma {:induction false} RunBegins(cfg: Config, rs: seq<Reading>)
    requires AllSane(rs)
    ensures var s := After(cfg, rs, 0);
            && s.currentMode == Day && s.dayCount == 0 && s.nightCount == 0
            && s.gbGainRecord == cfg.gbGainRecordInit && s.grGainRecord == cfg.grGainRecordInit
            && s.modeSwitches == 0 && s.dayToNight == 0 && s.nightToDay == 0
  {
  }

  /** The IR cut flag belongs to the mode, the ISP is in the mode, and switches are accounted for. */
  ghost predicate Accounted(cfg: Config, s: State) {
    && s.ispMode == s.currentMode
    && s.modeSwitches == s.dayToNight + s.nightToDay
    && s.dayToNight == s.nightToDay + (if s.currentMode == Night then 1 else 0)
    && s.ircutStatus == (!cfg.ircutEnabled || (if s.currentMode == Night then cfg.ircutNightState else cfg.ircutDayState) == 0)
    && s.nightCount >= 0 && s.dayCount >= 0
  }

  lemma {:induction false} StepAccounted(cfg: Config, s: State, r: Reading)
    requires Accounted(cfg, s) && ReadingSane(r)
    ensures Accounted(cfg, Step(cfg, s, r))
  {
    hide MinOf, GbOf, GrOf, LastGb, DayGate, DayCounts, NightConfirmed;
  }

  lemma {:induction false} NoPollsYet(cfg: Config, rs: seq<Reading>)
    requires AllSane(rs)
    ensures After(cfg, rs, 0) == Initial(cfg)
  {
  }

  /** In every reachable state: switches add up, there is one more to night than to day exactly in
      night mode, and the IR cut flag says whether the state configured for the mode is zero. */
  lemma {:induction false} SwitchAccounting(cfg: Config, rs: seq<Reading>, k: nat)
    requires AllSane(rs) && k <= |rs|
    ensures Accounted(cfg, After(cfg, rs, k))
  {
    hide After, Step;
    if k == 0 {
      NoPollsYet(cfg, rs);
    } else {
      SwitchAccounting(cfg, rs, k - 1);
      AfterStep(cfg, rs, k - 1);
      StepAccounted(cfg, After(cfg, rs, k - 1), rs[k - 1]);
    }
  }

  /** With the usual IR cut states the flag is set exactly in night mode. */
  lemma {:induction false} IrcutFollowsMode(cfg: Config, rs: seq<Reading>, k: nat)
    requires AllSane(rs) && k <= |rs|
    requires cfg.ircutEnabled && cfg.ircutDayState != 0 && cfg.ircutNightState == 0
    ensures After(cfg, rs, k).ircutStatus <==> After(cfg, rs, k).currentMode == Night
  {
    SwitchAccounting(cfg, rs, k);
  }

  /** Length of the run of night readings that ends with the `k`-th poll. */
  function NightStreak(cfg: Config, rs: seq<Reading>, k: nat): nat
    requires k <= |rs|
  {
    if k == 0 || !NightReading(cfg, rs[k - 1]) then 0 else NightStreak(cfg, rs, k - 1) + 1
  }

  /** Length of the run of polls qualifying for day mode that ends with the `k`-th poll. */
  function DayStreak(cfg: Config, rs: seq<Reading>, k: nat): nat
    requires AllSane(rs) && k <= |rs|
  {
    if k == 0 || !DayQualifies(cfg, After(cfg, rs, k - 1), rs[k - 1]) then 0 else DayStreak(cfg, rs, k - 1) + 1
  }

  /** The counters are exactly the lengths of the current qualifying runs. */
  lemma {:induction false} CountersAreStreaks(cfg: Config, rs: seq<Reading>, k: nat)
    requires AllSane(rs) && k <= |rs|
    ensures After(cfg, rs, k).nightCount == NightStreak(cfg, rs, k)
    ensures After(cfg, rs, k).dayCount == DayStreak(cfg, rs, k)
  {
    hide After, Step, DayQualifies;
    if k == 0 {
      NoPollsYet(cfg, rs);
    } else {
      CountersAreStreaks(cfg, rs, k - 1);
      AfterStep(cfg, rs, k - 1);
      StepEffects(cfg, After(cfg, rs, k - 1), rs[k - 1]);
    }
  }

  /** A run of night readings begins after the last poll that was none. */
  lemma {:induction false} NightStreakBegins(cfg: Config, rs: seq<Reading>, i: nat, k: nat)
    requires i < k <= |rs| && !NightReading(cfg, rs[i])
    ensures NightStreak(cfg, rs, k) <= k - 1 - i
  {
    if k > i + 1 {
      NightStreakBegins(cfg, rs, i, k - 1);
    }
  }

  lemma {:induction false} DayStreakBegins(cfg: Config, rs: seq<Reading>, i: nat, k: nat)
    requires AllSane(rs) && i < k <= |rs| && !DayQualifies(cfg, After(cfg, rs, i), rs[i])
    ensures DayStreak(cfg, rs, k) <= k - 1 - i
  {
    hide After, DayQualifies;
    if k > i + 1 {
      DayStreakBegins(cfg, rs, i, k - 1);
    }
  }

  /** Poll `i` switched to night. */
  ghost predicate SwitchedToNight(cfg: Config, rs: seq<Reading>, i: nat)
    requires AllSane(rs) && i < |rs|
  {
    After(cfg, rs, i + 1).dayToNight > After(cfg, rs, i).dayToNight
  }

  ghost predicate SwitchedToDay(cfg: Config, rs: seq<Reading>, i: nat)
    requires AllSane(rs) && i < |rs|
  {
    After(cfg, rs, i + 1).nightToDay > After(cfg, rs, i).nightToDay
  }

  /** An ISO reading that is night for one threshold and day for the other. */
  predicate InGap(cfg: Config, iso: nat) {
    cfg.nightIsoThreshold < iso as real < cfg.dayIsoThreshold
  }

  /** The IR cut flag of night mode keeps the day half of the loop shut. */
  predicate NightIsFinal(cfg: Config) {
    cfg.ircutEnabled && cfg.ircutNightState != 0
  }

  /** No reading is both night and day, or day mode never comes back. */
  ghost predicate Calm(cfg: Config) {
    (forall iso :: !InGap(cfg, iso)) || NightIsFinal(cfg)
  }

  lemma {:induction false} NeverBackToDay(cfg: Config, rs: seq<Reading>, i: nat)
    requires AllSane(rs) && i < |rs| && NightIsFinal(cfg)
    ensures !SwitchedToDay(cfg, rs, i)
    ensures After(cfg, rs, i + 1).modeSwitches <= After(cfg, rs, i).modeSwitches + 1
  {
    hide After, MinOf, GbOf, GrOf, LastGb;
    SwitchAccounting(cfg, rs, i);
    AfterStep(cfg, rs, i);
  }

  /** What a switch says about its poll. */
  lemma {:induction false} SwitchReadings(cfg: Config, rs: seq<Reading>, i: nat)
    requires AllSane(rs) && i < |rs| && forall iso :: !InGap(cfg, iso)
    ensures SwitchedToNight(cfg, rs, i) ==>
              NightStreak(cfg, rs, i + 1) > cfg.nightCountThreshold && NightReading(cfg, rs[i])
              && !DayQualifies(cfg, After(cfg, rs, i), rs[i])
    ensures SwitchedToDay(cfg, rs, i) ==>
              DayStreak(cfg, rs, i + 1) > cfg.dayCountThreshold && !NightReading(cfg, rs[i])
    ensures After(cfg, rs, i + 1).modeSwitches <= After(cfg, rs, i).modeSwitches + 1
  {
    hide After, Step, DayQualifies, NightStreak, DayStreak;
    assert !InGap(cfg, rs[i].iso);
    AfterStep(cfg, rs, i);
    StepEffects(cfg, After(cfg, rs, i), rs[i]);
    CountersAreStreaks(cfg, rs, i + 1);
  }

  /** No flapping in a calm configuration: a poll switches at most once; a switch to night comes more than
      `nightCountThreshold` polls after any switch to day, and a switch to day more than
      `dayCountThreshold` polls after any switch to night. */
  lemma {:induction false} NoFlapping(cfg: Config, rs: seq<Reading>, i: nat, j: nat)
    requires AllSane(rs) && i < |rs| && j < |rs| && Calm(cfg)
    ensures After(cfg, rs, j + 1).modeSwitches <= After(cfg, rs, j).modeSwitches + 1
    ensures i < j && SwitchedToDay(cfg, rs, i) && SwitchedToNight(cfg, rs, j) ==> j - i >= cfg.nightCountThreshold + 1
    ensures i < j && SwitchedToNight(cfg, rs, i) && SwitchedToDay(cfg, rs, j) ==> j - i >= cfg.dayCountThreshold + 1
  {
    hide After, DayQualifies, NightStreak, DayStreak, InGap;
    if NightIsFinal(cfg) {
      NeverBackToDay(cfg, rs, i);
      NeverBackToDay(cfg, rs, j);
    } else {
      SwitchReadings(cfg, rs, i);
      SwitchReadings(cfg, rs, j);
      if i < j && SwitchedToDay(cfg, rs, i) && SwitchedToNight(cfg, rs, j) {
        NightStreakBegins(cfg, rs, i, j + 1);
      }
      if i < j && SwitchedToNight(cfg, rs, i) && SwitchedToDay(cfg, rs, j) {
        DayStreakBegins(cfg, rs, i, j + 1);
      }
    }
  }

  // ---- Exactly when there is no flapping ----

  ghost predicate SingleSwitches(cfg: Config) {
    forall rs, k :: AllSane(rs) && 0 <= k < |rs| ==>
      After(cfg, rs, k + 1).modeSwitches <= After(cfg, rs, k).modeSwitches + 1
  }

  ghost predicate NightsSpaced(cfg: Config) {
    forall rs, i, j :: AllSane(rs) && 0 <= i < j < |rs| && SwitchedToDay(cfg, rs, i) && SwitchedToNight(cfg, rs, j) ==>
      j - i >= cfg.nightCountThreshold + 1
  }

  ghost predicate DaysSpaced(cfg: Config) {
    forall rs, i, j :: AllSane(rs) && 0 <= i < j < |rs| && SwitchedToNight(cfg, rs, i) && SwitchedToDay(cfg, rs, j) ==>
      j - i >= cfg.dayCountThreshold + 1
  }

  /** A gain above zero that passes both tests when the record is zero. */
  function StrongGain(cfg: Config): real {
    var base := if cfg.dayGbGainOffset > cfg.dayGbGainThreshold then cfg.dayGbGainOffset else cfg.dayGbGainThreshold;
    (if base > 0.0 then base else 0.0) + 1.0
  }

  /** A reading whose gain counts towards day mode only when night is confirmed: then the first sample sets
      the record to zero and the last one is strong. */
  function GapReading(cfg: Config, iso: nat): Reading {
    Reading(iso, Gains(cfg.gbGainRecordInit + cfg.dayGbGainOffset, 0.0),
            seq(SAMPLES, i => Gains(if i == 0 then 0.0 else StrongGain(cfg), 0.0)))
  }

  lemma {:induction false} GapMinima(cfg: Config, iso: nat)
    ensures ReadingSane(GapReading(cfg, iso))
    ensures MinOf(GbOf(GapReading(cfg, iso).samples)) == 0.0 && MinOf(GrOf(GapReading(cfg, iso).samples)) == 0.0
  {
    var samples := GapReading(cfg, iso).samples;
    assert GbOf(samples)[0] == 0.0 && GrOf(samples)[0] == 0.0;
    forall i | 0 <= i < SAMPLES
      ensures GbOf(samples)[i] >= 0.0 && GrOf(samples)[i] == 0.0
    {
      assert samples[i] == Gains(if i == 0 then 0.0 else StrongGain(cfg), 0.0);
    }
  }

  /** The state after `k` such readings: night is counted up to, then day, and then both at once. */
  function GapState(cfg: Config, k: nat): State {
    var (night, day) := (cfg.nightCountThreshold, cfg.dayCountThreshold);
    var ircut := !cfg.ircutEnabled || cfg.ircutDayState == 0;
    if k <= night then Initial(cfg).(nightCount := k)
    else if k <= night + day then State(Night, Night, true, k - night, k, 0.0, 0.0, 1, 1, 0)
    else if k == night + day + 1 then State(Day, Day, ircut, k - night, k, 0.0, 0.0, 2, 1, 1)
    else State(Day, Day, ircut, k - night, k, 0.0, 0.0, 4, 2, 2)
  }

  lemma {:induction false} GapStep(cfg: Config, iso: nat, k: nat)
    requires Validated(cfg) && InGap(cfg, iso) && !NightIsFinal(cfg)
    requires k <= cfg.nightCountThreshold + cfg.dayCountThreshold + 1
    ensures ReadingSane(GapReading(cfg, iso))
    ensures Step(cfg, GapState(cfg, k), GapReading(cfg, iso)) == GapState(cfg, k + 1)
  {
    hide MinOf, GbOf, GrOf;
    GapMinima(cfg, iso);
    var (s, r) := (GapState(cfg, k), GapReading(cfg, iso));
    assert r.samples[SAMPLES - 1].gb == StrongGain(cfg);
    assert NightConfirmed(cfg, s, r) <==> k >= cfg.nightCountThreshold;
    assert k < cfg.nightCountThreshold ==> !DayGate(cfg, NightHalf(cfg, s, r), iso, r.gains.gb);
    assert k >= cfg.nightCountThreshold ==> DayCounts(cfg, NightHalf(cfg, s, r), iso, StrongGain(cfg));
  }

  lemma {:induction false} GapRun(cfg: Config, iso: nat, rs: seq<Reading>, k: nat)
    requires Validated(cfg) && InGap(cfg, iso) && !NightIsFinal(cfg)
    requires k <= |rs| <= cfg.nightCountThreshold + cfg.dayCountThreshold + 2
    requires forall i :: 0 <= i < |rs| ==> rs[i] == GapReading(cfg, iso)
    ensures AllSane(rs) && After(cfg, rs, k) == GapState(cfg, k)
  {
    hide After, Step, GapReading, GapState;
    GapStep(cfg, iso, 0);
    if k == 0 {
      NoPollsYet(cfg, rs);
      GapBegins(cfg);
    } else {
      GapRun(cfg, iso, rs, k - 1);
      AfterStep(cfg, rs, k - 1);
      GapStep(cfg, iso, k - 1);
    }
  }

  lemma {:induction false} GapBegins(cfg: Config)
    requires Validated(cfg)
    ensures GapState(cfg, 0) == Initial(cfg)
  {
  }

  /** A run that breaks all three rules at its end: to night with the day streak beginning, to day one
      poll too early, and in the next poll to night and back. */
  lemma {:induction false} GapFlaps(cfg: Config, iso: nat) returns (rs: seq<Reading>, i: nat, j: nat)
    requires Validated(cfg) && InGap(cfg, iso) && !NightIsFinal(cfg)
    ensures AllSane(rs) && i < j && |rs| == j + 2
    ensures SwitchedToNight(cfg, rs, i) && SwitchedToDay(cfg, rs, j) && j - i == cfg.dayCountThreshold
    ensures SwitchedToNight(cfg, rs, j + 1)
    ensures After(cfg, rs, j + 2).modeSwitches == After(cfg, rs, j + 1).modeSwitches + 2
  {
    hide After, GapReading;
    i := cfg.nightCountThreshold;
    j := i + cfg.dayCountThreshold;
    rs := seq(j + 2, _ => GapReading(cfg, iso));
    GapRun(cfg, iso, rs, i);
    GapRun(cfg, iso, rs, i + 1);
    GapRun(cfg, iso, rs, j);
    GapRun(cfg, iso, rs, j + 1);
    GapRun(cfg, iso, rs, j + 2);
  }

  /** Each of the three rules holds over all runs exactly for the calm configurations. Gains may be any
      real numbers here. */
  lemma {:induction false} NoFlappingExactly(cfg: Config)
    requires Validated(cfg)
    ensures SingleSwitches(cfg) <==> Calm(cfg)
    ensures NightsSpaced(cfg) <==> Calm(cfg)
    ensures DaysSpaced(cfg) <==> Calm(cfg)
  {
    hide After, InGap, SwitchedToNight, SwitchedToDay;
    if Calm(cfg) {
      forall rs, k | AllSane(rs) && 0 <= k < |rs|
        ensures After(cfg, rs, k + 1).modeSwitches <= After(cfg, rs, k).modeSwitches + 1
      {
        NoFlapping(cfg, rs, k, k);
      }
      forall rs, i, j | AllSane(rs) && 0 <= i < j < |rs|
        ensures SwitchedToDay(cfg, rs, i) && SwitchedToNight(cfg, rs, j) ==> j - i >= cfg.nightCountThreshold + 1
        ensures SwitchedToNight(cfg, rs, i) && SwitchedToDay(cfg, rs, j) ==> j - i >= cfg.dayCountThreshold + 1
      {
        NoFlapping(cfg, rs, i, j);
      }
    } else {
      var iso :| InGap(cfg, iso);
      var rs, i, j := GapFlaps(cfg, iso);
      assert j + 1 < |rs|;
    }
  }

  /** The streak is a run of night readings that cannot be made longer. */
  lemma {:induction false} NightStreakExact(cfg: Config, rs: seq<Reading>, k: nat)
    requires k <= |rs|
    ensures var n := NightStreak(cfg, rs, k);
            && n <= k
            && (forall i :: k - n <= i < k ==> NightReading(cfg, rs[i]))
            && (n < k ==> !NightReading(cfg, rs[k - n - 1]))
  {
    if k > 0 && NightReading(cfg, rs[k - 1]) {
      NightStreakExact(cfg, rs, k - 1);
    }
  }

  // ---- Switches in terms of the readings ----

  /** Poll `k` confirms night: it is dark, and so were as many polls before it as the threshold says. */
  predicate NightPoll(cfg: Config, rs: seq<Reading>, k: nat)
    requires k < |rs|
  {
    && k >= cfg.nightCountThreshold
    && forall m :: 0 <= m && k - cfg.nightCountThreshold <= m <= k ==> rs[m].iso as real > cfg.nightIsoThreshold
  }

  /** The gain that poll `k` compares: its own, or sample 19 when night is confirmed. */
  function GainOf(cfg: Config, rs: seq<Reading>, k: nat): real
    requires AllSane(rs) && k < |rs|
  {
    if NightPoll(cfg, rs, k) then rs[k].samples[19].gb else rs[k].gains.gb
  }

  /** Poll `k` counts towards day: it is bright, the IR cut state of its mode is zero (or the IR cut is
      off), the gain exceeds the record by the offset, and it is very bright or the gain is high. When
      night is confirmed, the record is that of the samples. */
  ghost predicate DayPoll(cfg: Config, rs: seq<Reading>, k: nat)
    requires AllSane(rs) && k < |rs|
  {
    var (s, r, gb) := (After(cfg, rs, k), rs[k], GainOf(cfg, rs, k));
    var night := NightPoll(cfg, rs, k);
    && r.iso as real < cfg.dayIsoThreshold
    && (cfg.ircutEnabled ==> (if night || s.currentMode == Night then cfg.ircutNightState else cfg.ircutDayState) == 0)
    && (night ==> exists m :: 0 <= m < 20 && gb > r.samples[m].gb + cfg.dayGbGainOffset)
    && (!night ==> gb > s.gbGainRecord + cfg.dayGbGainOffset)
    && (r.iso as real < cfg.dayIsoSecondaryThreshold || gb > cfg.dayGbGainThreshold)
  }

  lemma {:induction false} NightPollIs(cfg: Config, rs: seq<Reading>, k: nat)
    requires AllSane(rs) && k < |rs| && Validated(cfg)
    ensures NightConfirmed(cfg, After(cfg, rs, k), rs[k]) <==> NightPoll(cfg, rs, k)
  {
    hide After;
    CountersAreStreaks(cfg, rs, k);
    NightStreakExact(cfg, rs, k);
    hide NightStreak;
    var n := NightStreak(cfg, rs, k);
    if NightPoll(cfg, rs, k) {
      assert forall m :: 0 <= m && k - cfg.nightCountThreshold <= m <= k ==> NightReading(cfg, rs[m]);
      assert NightReading(cfg, rs[k]);
    }
    if NightConfirmed(cfg, After(cfg, rs, k), rs[k]) {
      assert forall m :: 0 <= m && k - cfg.nightCountThreshold <= m < k ==> NightReading(cfg, rs[m]);
    }
  }

  lemma {:induction false} MinExceeded(gs: seq<Gains>, gb: real, offset: real)
    requires |gs| == SAMPLES
    ensures gb > MinOf(GbOf(gs)) + offset <==> exists m :: 0 <= m < 20 && gb > gs[m].gb + offset
  {
    var s := GbOf(gs);
    assert MinOf(s) in s;
    var i :| 0 <= i < |s| && s[i] == MinOf(s);
    assert gs[i].gb == MinOf(s);
    assert forall m :: 0 <= m < 20 ==> gs[m].gb == s[m] >= MinOf(s);
  }

  lemma {:induction false} DayPollIs(cfg: Config, rs: seq<Reading>, k: nat)
    requires AllSane(rs) && k < |rs| && Validated(cfg)
    ensures DayQualifies(cfg, After(cfg, rs, k), rs[k]) <==> DayPoll(cfg, rs, k)
  {
    hide After, MinOf, GbOf, GrOf, NightPoll;
    SwitchAccounting(cfg, rs, k);
    NightPollIs(cfg, rs, k);
    MinExceeded(rs[k].samples, rs[k].samples[19].gb, cfg.dayGbGainOffset);
  }

  /** The day streak in raw readings: the longest run of polls that count, and the poll in front of it does
      not. */
  lemma {:induction false} DayStreakExact(cfg: Config, rs: seq<Reading>, k: nat)
    requires AllSane(rs) && k <= |rs| && Validated(cfg)
    ensures var n := DayStreak(cfg, rs, k);
            && n <= k
            && (forall i :: k - n <= i < k ==> DayPoll(cfg, rs, i))
            && (n < k ==> !DayPoll(cfg, rs, k - n - 1))
  {
    hide DayPoll, DayQualifies, After;
    if k > 0 {
      DayPollIs(cfg, rs, k - 1);
      DayStreakExact(cfg, rs, k - 1);
    }
  }

  /** What one poll does to mode and records, in terms of the state before it. */
  lemma {:induction false} StepModes(cfg: Config, s: State, r: Reading)
    requires Accounted(cfg, s) && ReadingSane(r)
    ensures var (t, night) := (Step(cfg, s, r), NightConfirmed(cfg, s, r));
            var day := DayQualifies(cfg, s, r) && s.dayCount + 1 > cfg.dayCountThreshold;
            && t.dayToNight == s.dayToNight + (if night && s.currentMode == Day then 1 else 0)
            && (cfg.dayCountThreshold >= 0 ==>
                  && t.nightToDay == s.nightToDay + (if day && (night || s.currentMode == Night) then 1 else 0)
                  && t.currentMode == (if day then Day else if night then Night else s.currentMode))
            && t.gbGainRecord == (if night then MinOf(GbOf(r.samples)) else s.gbGainRecord)
            && t.grGainRecord == (if night then MinOf(GrOf(r.samples)) else s.grGainRecord)
  {
    hide MinOf, GbOf, GrOf, LastGb;
  }

  /** Exactly when a poll switches. To night: in day mode, when night is confirmed. To day: in night mode
      or when night was confirmed just now, when this poll and as many before it as the threshold says
      count towards day. */
  lemma {:induction false} SwitchesExactly(cfg: Config, rs: seq<Reading>, i: nat)
    requires AllSane(rs) && i < |rs| && Validated(cfg)
    ensures SwitchedToNight(cfg, rs, i) <==> After(cfg, rs, i).currentMode == Day && NightPoll(cfg, rs, i)
    ensures SwitchedToDay(cfg, rs, i) <==>
              && (After(cfg, rs, i).currentMode == Night || NightPoll(cfg, rs, i))
              && i >= cfg.dayCountThreshold
              && forall m :: 0 <= m && i - cfg.dayCountThreshold <= m <= i ==> DayPoll(cfg, rs, m)
    ensures After(cfg, rs, i + 1).currentMode ==
            if SwitchedToDay(cfg, rs, i) then Day
            else if SwitchedToNight(cfg, rs, i) then Night
            else After(cfg, rs, i).currentMode
  {
    hide After, Step, DayPoll, DayQualifies, NightPoll, NightConfirmed;
    SwitchAccounting(cfg, rs, i);
    AfterStep(cfg, rs, i);
    StepModes(cfg, After(cfg, rs, i), rs[i]);
    NightPollIs(cfg, rs, i);
    DayPollIs(cfg, rs, i);
    CountersAreStreaks(cfg, rs, i);
    DayStreakExact(cfg, rs, i);
    hide DayStreak;
    var n := DayStreak(cfg, rs, i);
    assert n < i ==> !DayPoll(cfg, rs, i - n - 1);
  }

  /** The records are the least gains of the samples of the last poll that confirmed night. */
  lemma {:induction false} RecordsExactly(cfg: Config, rs: seq<Reading>, i: nat)
    requires AllSane(rs) && i < |rs| && Validated(cfg)
    ensures !NightPoll(cfg, rs, i) ==>
              && After(cfg, rs, i + 1).gbGainRecord == After(cfg, rs, i).gbGainRecord
              && After(cfg, rs, i + 1).grGainRecord == After(cfg, rs, i).grGainRecord
    ensures NightPoll(cfg, rs, i) ==>
              && (forall m :: 0 <= m < 20 ==>
                    After(cfg, rs, i + 1).gbGainRecord <= rs[i].samples[m].gb
                    && After(cfg, rs, i + 1).grGainRecord <= rs[i].samples[m].gr)
              && (exists m :: 0 <= m < 20 && After(cfg, rs, i + 1).gbGainRecord == rs[i].samples[m].gb)
              && (exists m :: 0 <= m < 20 && After(cfg, rs, i + 1).grGainRecord == rs[i].samples[m].gr)
  {
    hide After, Step, NightPoll, NightConfirmed;
    SwitchAccounting(cfg, rs, i);
    AfterStep(cfg, rs, i);
    StepModes(cfg, After(cfg, rs, i), rs[i]);
    NightPollIs(cfg, rs, i);
    MinimaOf(rs[i].samples);
  }

  lemma {:induction false} MinimaOf(gs: seq<Gains>)
    requires |gs| == SAMPLES
    ensures forall m :: 0 <= m < 20 ==> MinOf(GbOf(gs)) <= gs[m].gb && MinOf(GrOf(gs)) <= gs[m].gr
    ensures exists m :: 0 <= m < 20 && MinOf(GbOf(gs)) == gs[m].gb
    ensures exists m :: 0 <= m < 20 && MinOf(GrOf(gs)) == gs[m].gr
  {
    assert MinOf(GbOf(gs)) in GbOf(gs) && MinOf(GrOf(gs)) in GrOf(gs);
    forall m | 0 <= m < 20
      ensures MinOf(GbOf(gs)) <= gs[m].gb && MinOf(GrOf(gs)) <= gs[m].gr
    {
      assert GbOf(gs)[m] == gs[m].gb && GrOf(gs)[m] == gs[m].gr;
    }
  }

  // ---- Returning to day ----

  /** One more poll at the front of a run. */
  lemma {:induction false} RunFromFront(cfg: Config, s: State, r: Reading, rs: seq<Reading>)
    requires ReadingSane(r) && AllSane(rs)
    ensures AllSane([r] + rs) && Run(cfg, s, [r] + rs) == Run(cfg, Step(cfg, s, r), rs)
  {
    hide Step;
    var all := [r] + rs;
    if rs == [] {
      assert all[..0] == [];
    } else {
      assert all[..|rs|] == [r] + rs[..|rs| - 1];
      RunFromFront(cfg, s, r, rs[..|rs| - 1]);
    }
  }

  /** The gains that the sensor can deliver. */
  ghost predicate InRange(r: Reading, lo: real, hi: real) {
    && lo <= r.gains.gb <= hi
    && forall i :: 0 <= i < |r.samples| ==> lo <= r.samples[i].gb <= hi
  }

  ghost predicate AllInRange(rs: seq<Reading>, lo: real, hi: real) {
    forall i :: 0 <= i < |rs| ==> InRange(rs[i], lo, hi)
  }

  /** The strongest gain passes the test against the lowest record that can be had, and counts. */
  predicate GainSuffices(cfg: Config, record: real, lo: real, hi: real) {
    && hi > (if record < lo then record else lo) + cfg.dayGbGainOffset
    && (0.0 < cfg.dayIsoSecondaryThreshold || hi > cfg.dayGbGainThreshold)
  }

  /** Night mode, with a record that no sample has undercut. */
  ghost predicate NightFrom(cfg: Config, s: State, record: real, lo: real) {
    Accounted(cfg, s) && s.currentMode == Night && (s.gbGainRecord >= record || s.gbGainRecord >= lo)
  }

  lemma {:induction false} StaysNightStep(cfg: Config, s: State, r: Reading, record: real, lo: real, hi: real)
    requires NightFrom(cfg, s, record, lo) && ReadingSane(r) && InRange(r, lo, hi) && Validated(cfg)
    requires NightIsFinal(cfg) || !GainSuffices(cfg, record, lo, hi)
    ensures NightFrom(cfg, Step(cfg, s, r), record, lo)
  {
    hide MinOf, GrOf;
    assert NightConfirmed(cfg, s, r) ==> NightHalf(cfg, s, r).gbGainRecord >= lo by {
      assert MinOf(GbOf(r.samples)) in GbOf(r.samples);
    }
    StepAccounted(cfg, s, r);
  }

  lemma {:induction false} StaysNight(cfg: Config, s: State, rs: seq<Reading>, record: real, lo: real, hi: real)
    requires NightFrom(cfg, s, record, lo) && AllSane(rs) && AllInRange(rs, lo, hi) && Validated(cfg)
    requires NightIsFinal(cfg) || !GainSuffices(cfg, record, lo, hi)
    ensures NightFrom(cfg, Run(cfg, s, rs), record, lo)
  {
    hide Step, NightFrom;
    if rs != [] {
      StaysNight(cfg, s, rs[..|rs| - 1], record, lo, hi);
      StaysNightStep(cfg, Run(cfg, s, rs[..|rs| - 1]), rs[|rs| - 1], record, lo, hi);
    }
  }

  /** A dark poll that lowers the record as far as possible once night is confirmed. */
  function DarkReading(cfg: Config, lo: real): Reading
    requires Validated(cfg)
  {
    Reading(cfg.nightIsoThreshold.Floor + 1, Gains(lo, 0.0), seq(SAMPLES, _ => Gains(lo, 0.0)))
  }

  /** A bright poll with the strongest gain. */
  function BrightReading(lo: real, hi: real): Reading {
    Reading(0, Gains(hi, 0.0), seq(SAMPLES, _ => Gains(lo, 0.0)))
  }

  lemma {:induction false} DarkStep(cfg: Config, s: State, lo: real)
    requires Accounted(cfg, s) && Validated(cfg)
    ensures var r := DarkReading(cfg, lo);
            && ReadingSane(r) && InRange(r, lo, lo)
            && Step(cfg, s, r).nightCount == s.nightCount + 1
            && Step(cfg, s, r).gbGainRecord == if s.nightCount + 1 > cfg.nightCountThreshold then lo else s.gbGainRecord
  {
    hide MinOf, GrOf, LastGb;
    assert MinOf(GbOf(DarkReading(cfg, lo).samples)) in GbOf(DarkReading(cfg, lo).samples);
  }

  lemma {:induction false} BrightStep(cfg: Config, s: State, lo: real, hi: real)
    requires Accounted(cfg, s) && s.currentMode == Night && Validated(cfg) && !NightIsFinal(cfg) && lo <= hi
    requires s.gbGainRecord <= lo && GainSuffices(cfg, s.gbGainRecord, lo, hi)
    ensures var (r, next) := (BrightReading(lo, hi), Step(cfg, s, BrightReading(lo, hi)));
            && ReadingSane(r) && InRange(r, lo, hi)
            && (next.currentMode == Day || next == s.(nightCount := 0, dayCount := s.dayCount + 1))
            && (s.dayCount >= cfg.dayCountThreshold ==> next.currentMode == Day)
  {
    hide MinOf, GbOf, GrOf;
  }

  /** Dark polls that are missing until night is confirmed and the record lowered. */
  function Missing(cfg: Config, s: State, lo: real): nat {
    if s.gbGainRecord > lo && cfg.nightCountThreshold > s.nightCount then cfg.nightCountThreshold - s.nightCount else 0
  }

  /** Dark polls until the record is low, then bright polls until day mode. */
  lemma {:induction false} ReturnToDay(cfg: Config, s: State, lo: real, hi: real) returns (rs: seq<Reading>)
    requires Accounted(cfg, s) && s.currentMode == Night && Validated(cfg) && !NightIsFinal(cfg) && lo <= hi
    requires GainSuffices(cfg, s.gbGainRecord, lo, hi)
    ensures AllSane(rs) && AllInRange(rs, lo, hi) && Run(cfg, s, rs).currentMode == Day
    decreases s.gbGainRecord > lo, Missing(cfg, s, lo), cfg.dayCountThreshold - s.dayCount
  {
    hide Step;
    var dark := s.gbGainRecord > lo;
    var r := if dark then DarkReading(cfg, lo) else BrightReading(lo, hi);
    if dark {
      DarkStep(cfg, s, lo);
    } else {
      BrightStep(cfg, s, lo, hi);
    }
    var next := Step(cfg, s, r);
    StepAccounted(cfg, s, r);
    if next.currentMode == Day {
      rs := [r];
      assert rs[..0] == [];
    } else {
      var rest := ReturnToDay(cfg, next, lo, hi);
      RunFromFront(cfg, s, r, rest);
      rs := [r] + rest;
    }
  }

  /** With gains between `lo` and `hi` and any ISO readings, night mode can be left again by some run of
      polls exactly when the night state of the IR cut does not shut the day half of the loop and the
      strongest gain is strong enough. */
  lemma {:induction false} DayReachableIff(cfg: Config, s: State, lo: real, hi: real)
    requires Accounted(cfg, s) && s.currentMode == Night && Validated(cfg) && lo <= hi
    ensures (exists rs :: AllSane(rs) && AllInRange(rs, lo, hi) && Run(cfg, s, rs).currentMode == Day)
            <==> !NightIsFinal(cfg) && GainSuffices(cfg, s.gbGainRecord, lo, hi)
  {
    if NightIsFinal(cfg) || !GainSuffices(cfg, s.gbGainRecord, lo, hi) {
      forall rs | AllSane(rs) && AllInRange(rs, lo, hi)
        ensures Run(cfg, s, rs).currentMode == Night
      {
        StaysNight(cfg, s, rs, s.gbGainRecord, lo, hi);
      }
    } else {
      var rs := ReturnToDay(cfg, s, lo, hi);
    }
  }
}
