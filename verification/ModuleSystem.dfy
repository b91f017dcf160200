/** The module lifecycle of src/module_system.c (lines 51-257): registration, the three passes over all
    modules and the cleanup, and the order of callbacks over every run of these operations. */
module ModuleSystem {
  import opened Common

  const MAX_MODULES: nat := 16

  datatype ModuleState = Unregistered | Registered | Initialized | Running | Failed

  /** `module_info_t`: which callbacks a module has, and its state. */
  datatype Module = Module(
    name: string, hasInit: bool, hasStart: bool, hasStop: bool, hasCleanup: bool, state: ModuleState)

  /** What happens to a module. `called` says whether a callback was made for it; `ok` is its answer. */
  datatype Event =
    | Added(name: string)
    | Init(name: string, ok: bool)
    | Start(name: string, called: bool, ok: bool)
    | Stop(name: string, called: bool)
    | Cleanup(name: string, called: bool)

  /** The registry and everything that has happened. */
  datatype System = System(modules: seq<Module>, trace: seq<Event>)

  const EMPTY: System := System([], [])

  /** Answers of the callbacks in one pass, by registry position. */
  type Answers = nat -> bool

  // ---- Operations ----

  function SetState(s: System, i: nat, state: ModuleState, e: Event): System
    requires i < |s.modules|
  {
    System(s.modules[i := s.modules[i].(state := state)], s.trace + [e])
  }

  predicate NameTaken(modules: seq<Module>, name: string) {
    exists i :: 0 <= i < |modules| && modules[i].name == name
  }

  function Register(s: System, m: Module): System {
    if |s.modules| >= MAX_MODULES || NameTaken(s.modules, m.name) then s
    else System(s.modules + [m.(state := Registered)], s.trace + [Added(m.name)])
  }

  /** One module in `module_init_all`. */
  function InitOne(s: System, i: nat, ok: bool): System
    requires i < |s.modules|
  {
    var m := s.modules[i];
    if m.state != Registered || !m.hasInit then s
    else SetState(s, i, if ok then Initialized else Failed, Init(m.name, ok))
  }

  /** One module in `module_start_all`; a module without a start function just counts as running. */
  function StartOne(s: System, i: nat, ok: bool): System
    requires i < |s.modules|
  {
    var m := s.modules[i];
    if m.state != Initialized then s
    else if !m.hasStart then SetState(s, i, Running, Start(m.name, false, true))
    else SetState(s, i, if ok then Running else Failed, Start(m.name, true, ok))
  }

  function StopOne(s: System, i: nat): System
    requires i < |s.modules|
  {
    var m := s.modules[i];
    if m.state != Running then s else SetState(s, i, Initialized, Stop(m.name, m.hasStop))
  }

  function CleanupOne(s: System, i: nat): System
    requires i < |s.modules|
  {
    SetState(s, i, Unregistered, Cleanup(s.modules[i].name, s.modules[i].hasCleanup))
  }

  /** The first `n` modules, in order. */
  function InitTo(s: System, answers: Answers, n: nat): (r: System)
    requires n <= |s.modules|
    ensures |r.modules| == |s.modules|
  {
    if n == 0 then s else InitOne(InitTo(s, answers, n - 1), n - 1, answers(n - 1))
  }

  function StartTo(s: System, answers: Answers, n: nat): (r: System)
    requires n <= |s.modules|
    ensures |r.modules| == |s.modules|
  {
    if n == 0 then s else StartOne(StartTo(s, answers, n - 1), n - 1, answers(n - 1))
  }

  /** The modules from the last one down to `n`. */
  function StopDownTo(s: System, n: nat): (r: System)
    requires n <= |s.modules|
    ensures |r.modules| == |s.modules|
    decreases |s.modules| - n
  {
    if n == |s.modules| then s else StopOne(StopDownTo(s, n + 1), n)
  }

  function CleanupDownTo(s: System, n: nat): (r: System)
    requires n <= |s.modules|
    ensures |r.modules| == |s.modules|
    decreases |s.modules| - n
  {
    if n == |s.modules| then s else CleanupOne(CleanupDownTo(s, n + 1), n)
  }

  /** No init function that is due among the first `n` modules fails. */
  predicate InitsSucceed(ms: seq<Module>, answers: Answers, n: nat)
    requires n <= |ms|
  {
    forall k :: 0 <= k < n && ms[k].state == Registered && ms[k].hasInit ==> answers(k)
  }

  predicate StartsSucceed(ms: seq<Module>, answers: Answers, n: nat)
    requires n <= |ms|
  {
    forall k :: 0 <= k < n && ms[k].state == Initialized && ms[k].hasStart ==> answers(k)
  }

  lemma {:induction false} NothingDue(ms: seq<Module>, answers: Answers)
    ensures InitsSucceed(ms, answers, 0) && StartsSucceed(ms, answers, 0)
  {
  }

  lemma {:induction false} MoreInits(ms: seq<Module>, answers: Answers, n: nat)
    requires n < |ms|
    ensures InitsSucceed(ms, answers, n + 1) <==>
              InitsSucceed(ms, answers, n) && (ms[n].state == Registered && ms[n].hasInit ==> answers(n))
  {
  }

  lemma {:induction false} MoreStarts(ms: seq<Module>, answers: Answers, n: nat)
    requires n < |ms|
    ensures StartsSucceed(ms, answers, n + 1) <==>
              StartsSucceed(ms, answers, n) && (ms[n].state == Initialized && ms[n].hasStart ==> answers(n))
  {
  }

  // ---- The registry ----

  /** A `module_info_t`. */
  class ModuleInfo {
    const name: string
    const hasInit: bool
    const hasStart: bool
    const hasStop: bool
    const hasCleanup: bool
    var state: ModuleState

    constructor (name: string, hasInit: bool, hasStart: bool, hasStop: bool, hasCleanup: bool)
      ensures AsModule() == Module(name, hasInit, hasStart, hasStop, hasCleanup, Unregistered)
    {
      this.name, this.hasInit, this.hasStart, this.hasStop := name, hasInit, hasStart, hasStop;
      this.hasCleanup := hasCleanup;
      state := Unregistered;
    }

    function AsModule(): Module
      reads this
    {
      Module(name, hasInit, hasStart, hasStop, hasCleanup, state)
    }
  }

  /** The static registry of module_system.c. */
  class Registry {
    var modules: seq<ModuleInfo>
    ghost var trace: seq<Event>

    ghost function View(): (s: System)
      reads this, modules
      ensures |s.modules| == |modules|
    {
      System(seq(|modules|, i requires 0 <= i < |modules| reads this, modules => modules[i].AsModule()), trace)
    }

    /** Registered modules are different objects. */
    ghost predicate Valid()
      reads this
    {
      forall i, j :: 0 <= i < j < |modules| ==> modules[i] != modules[j]
    }

    constructor ()
      ensures Valid() && View() == EMPTY
    {
      modules, trace := [], [];
    }

    /** `module_register`. */
    method RegisterModule(module_: ModuleInfo) returns (ret: int)
      requires Valid()
      modifies this, module_
      ensures Valid()
      ensures View() == Register(old(View()), old(module_.AsModule()))
      ensures ret == 0 <==> |modules| == |old(modules)| + 1
      ensures ret != 0 ==> modules == old(modules)
    {
      if |modules| >= MAX_MODULES {
        return -1;
      }
      for i := 0 to |modules|
        invariant forall k :: 0 <= k < i ==> modules[k].name != module_.name
      {
        if modules[i].name == module_.name {
          assert View().modules[i].name == module_.name;
          return -1;
        }
      }
      assert !NameTaken(View().modules, module_.name);
      modules := modules + [module_];
      module_.state := Registered;
      trace := trace + [Added(module_.name)];
      return 0;
    }

    /** A state change of one module, with what is logged for it. */
    method Change(i: nat, state: ModuleState, ghost e: Event)
      requires Valid() && i < |modules|
      modifies this`trace, modules[i]
      ensures View() == SetState(old(View()), i, state, e)
    {
      modules[i].state := state;
      trace := trace + [e];
    }

    /** `module_init_all`. */
    method InitAll(answers: Answers) returns (ret: int)
      requires Valid()
      modifies this`trace, modules
      ensures Valid()
      ensures View() == InitTo(old(View()), answers, |modules|)
      ensures ret == 0 <==> InitsSucceed(old(View()).modules, answers, |modules|)
    {
      hide SetState, InitsSucceed;
      assert InitsSucceed(View().modules, answers, 0) by { NothingDue(View().modules, answers); }
      ghost var before := View();
      var errorCount := 0;
      for i := 0 to |modules|
        invariant View() == InitTo(before, answers, i)
        invariant forall k :: i <= k < |modules| ==> View().modules[k] == before.modules[k]
        invariant errorCount >= 0
        invariant errorCount == 0 <==> InitsSucceed(before.modules, answers, i)
      {
        var m := modules[i];
        assert m.AsModule() == View().modules[i];
        MoreInits(before.modules, answers, i);
        if m.state == Registered && m.hasInit {
          if answers(i) {
            Change(i, Initialized, Init(m.name, true));
          } else {
            Change(i, Failed, Init(m.name, false));
            errorCount := errorCount + 1;
          }
        }
      }
      return if errorCount == 0 then 0 else -1;
    }

    /** `module_start_all`. */
    method StartAll(answers: Answers) returns (ret: int)
      requires Valid()
      modifies this`trace, modules
      ensures Valid()
      ensures View() == StartTo(old(View()), answers, |modules|)
      ensures ret == 0 <==> StartsSucceed(old(View()).modules, answers, |modules|)
    {
      hide SetState, StartsSucceed;
      assert StartsSucceed(View().modules, answers, 0) by { NothingDue(View().modules, answers); }
      ghost var before := View();
      var errorCount := 0;
      for i := 0 to |modules|
        invariant View() == StartTo(before, answers, i)
        invariant forall k :: i <= k < |modules| ==> View().modules[k] == before.modules[k]
        invariant errorCount >= 0
        invariant errorCount == 0 <==> StartsSucceed(before.modules, answers, i)
      {
        var m := modules[i];
        assert m.AsModule() == View().modules[i];
        MoreStarts(before.modules, answers, i);
        if m.state == Initialized {
          if !m.hasStart {
            Change(i, Running, Start(m.name, false, true));
          } else if answers(i) {
            Change(i, Running, Start(m.name, true, true));
          } else {
            Change(i, Failed, Start(m.name, true, false));
            errorCount := errorCount + 1;
          }
        }
      }
      return if errorCount == 0 then 0 else -1;
    }

    /** `module_stop_all`. */
    method StopAll()
      requires Valid()
      modifies this`trace, modules
      ensures Valid()
      ensures View() == StopDownTo(old(View()), 0)
    {
      hide SetState;
      for i := |modules| downto 0
        invariant View() == StopDownTo(old(View()), i)
      {
        var m := modules[i];
        assert m.AsModule() == View().modules[i];
        if m.state == Running {
          Change(i, Initialized, Stop(m.name, m.hasStop));
        }
      }
    }

    /** `module_cleanup_all`. */
    method CleanupAll()
      requires Valid()
      modifies this, modules
      ensures Valid()
      ensures View() == System([], CleanupDownTo(old(View()), 0).trace)
    {
      hide SetState;
      for i := |modules| downto 0
        invariant Valid() && modules == old(modules)
        invariant View() == CleanupDownTo(old(View()), i)
      {
        assert modules[i].AsModule() == View().modules[i];
        Change(i, Unregistered, Cleanup(modules[i].name, modules[i].hasCleanup));
      }
      modules := [];
    }
  }

  // ---- The life of a module ----

  /** What a trace says about one module. */
  datatype Life = Gone | Fresh | Ready | Up | Lost | Broken

  /** The allowed callbacks: init once after registration, start after a successful init or a stop, stop
      only while up; a module that failed is lost. Anything else breaks the order. */
  function NextLife(l: Life, e: Event): Life {
    match e
    case Added(_) => if l.Gone? then Fresh else Broken
    case Init(_, ok) => if l.Fresh? then (if ok then Ready else Lost) else Broken
    case Start(_, _, ok) => if l.Ready? then (if ok then Up else Lost) else Broken
    case Stop(_, _) => if l.Up? then Ready else Broken
    case Cleanup(_, _) => if l.Gone? || l.Broken? then Broken else Gone
  }

  function LifeOf(trace: seq<Event>, name: string): Life {
    if trace == [] then Gone
    else
      var (l, e) := (LifeOf(trace[..|trace| - 1], name), trace[|trace| - 1]);
      if e.name == name then NextLife(l, e) else l
  }

  lemma {:induction false} LifeStep(trace: seq<Event>, e: Event, name: string)
    ensures LifeOf(trace + [e], name) == if e.name == name then NextLife(LifeOf(trace, name), e) else LifeOf(trace, name)
  {
    assert (trace + [e])[..|trace|] == trace;
  }

  function LifeIn(state: ModuleState): Life {
    match state
    case Unregistered => Gone
    case Registered => Fresh
    case Initialized => Ready
    case Running => Up
    case Failed => Lost
  }

  ghost predicate UniqueNames(modules: seq<Module>) {
    forall i, j :: 0 <= i < j < |modules| ==> modules[i].name != modules[j].name
  }

  /** The states of the registry agree with what has happened, for every name. */
  ghost predicate Tracks(s: System) {
    && (forall i :: 0 <= i < |s.modules| ==> LifeOf(s.trace, s.modules[i].name) == LifeIn(s.modules[i].state))
    && (forall name :: !NameTaken(s.modules, name) ==> LifeOf(s.trace, name) == Gone)
  }

  ghost predicate Sound(s: System) {
    |s.modules| <= MAX_MODULES && UniqueNames(s.modules) && Tracks(s)
  }

  /** A state change that the automaton allows keeps the system sound. */
  lemma {:induction false} SetStateSound(s: System, i: nat, state: ModuleState, e: Event)
    requires Sound(s) && i < |s.modules| && e.name == s.modules[i].name
    requires NextLife(LifeIn(s.modules[i].state), e) == LifeIn(state)
    ensures Sound(SetState(s, i, state, e))
  {
    hide LifeOf, NextLife, LifeIn;
    var t := SetState(s, i, state, e);
    forall j | 0 <= j < |t.modules|
      ensures LifeOf(t.trace, t.modules[j].name) == LifeIn(t.modules[j].state)
    {
      LifeStep(s.trace, e, t.modules[j].name);
    }
    forall name | !NameTaken(t.modules, name)
      ensures LifeOf(t.trace, name) == Gone
    {
      LifeStep(s.trace, e, name);
      assert t.modules[i].name == e.name;
      assert forall j :: 0 <= j < |s.modules| ==> s.modules[j].name == t.modules[j].name;
    }
  }

  // ---- The order of starting ----

  /** `o` without `name`. */
  function Without(o: seq<string>, name: string): seq<string> {
    if o == [] then []
    else if o[|o| - 1] == name then Without(o[..|o| - 1], name)
    else Without(o[..|o| - 1], name) + [o[|o| - 1]]
  }

  lemma {:induction false} WithoutAbsent(o: seq<string>, name: string)
    requires name !in o
    ensures Without(o, name) == o
  {
    if o != [] {
      assert o[|o| - 1] in o;
      assert forall x :: x in o[..|o| - 1] ==> x in o;
      WithoutAbsent(o[..|o| - 1], name);
    }
  }

  /** A start puts the module at the end of the order, a stop or a cleanup takes it out. */
  function NextOrder(o: seq<string>, e: Event): seq<string> {
    if e.Start? && e.ok then o + [e.name]
    else if e.Stop? || e.Cleanup? then Without(o, e.name)
    else o
  }

  /** The modules that are up after a trace, in the order in which they were started. */
  function OrderOf(trace: seq<Event>): seq<string> {
    if trace == [] then [] else NextOrder(OrderOf(trace[..|trace| - 1]), trace[|trace| - 1])
  }

  lemma {:induction false} OrderStep(trace: seq<Event>, e: Event)
    ensures OrderOf(trace + [e]) == NextOrder(OrderOf(trace), e)
  {
    assert (trace + [e])[..|trace|] == trace;
  }

  /** The names of the running modules, by registry position. */
  function RunningNames(ms: seq<Module>): seq<string> {
    if ms == [] then []
    else
      RunningNames(ms[..|ms| - 1]) + if ms[|ms| - 1].state == Running then [ms[|ms| - 1].name] else []
  }

  /** No module from position `n` on is running. */
  predicate QuietFrom(ms: seq<Module>, n: nat) {
    forall i :: n <= i < |ms| ==> ms[i].state != Running
  }

  lemma {:induction false} RunningQuiet(ms: seq<Module>, n: nat)
    requires n <= |ms| && QuietFrom(ms, n)
    ensures RunningNames(ms) == RunningNames(ms[..n])
  {
    if n < |ms| {
      RunningQuiet(ms[..|ms| - 1], n);
      assert ms[..|ms| - 1][..n] == ms[..n];
    } else {
      assert ms[..n] == ms;
    }
  }

  lemma {:induction false} RunningNameOf(ms: seq<Module>, name: string)
    requires name in RunningNames(ms)
    ensures NameTaken(ms, name)
  {
    var init := ms[..|ms| - 1];
    if name in RunningNames(init) {
      RunningNameOf(init, name);
      var i :| 0 <= i < |init| && init[i].name == name;
      assert ms[i].name == name;
    } else {
      assert ms[|ms| - 1].name == name;
    }
  }

  /** A module that was not running and is not running now does not show. */
  lemma {:induction false} RunningUnchanged(ms: seq<Module>, i: nat, m: Module)
    requires i < |ms| && ms[i].state != Running && m.state != Running
    ensures RunningNames(ms[i := m]) == RunningNames(ms)
  {
    var init := ms[..|ms| - 1];
    if i < |init| {
      assert ms[i := m][..|ms| - 1] == init[i := m];
      RunningUnchanged(init, i, m);
    } else {
      assert ms[i := m][..|ms| - 1] == init;
    }
  }

  /** The running module with the highest position is the last one. */
  lemma {:induction false} RunningLast(ms: seq<Module>, i: nat)
    requires i < |ms| && ms[i].state == Running && QuietFrom(ms, i + 1)
    ensures RunningNames(ms) == RunningNames(ms[..i]) + [ms[i].name]
  {
    RunningQuiet(ms, i + 1);
    assert ms[..i + 1][..i] == ms[..i];
  }

  /** What keeps position and starting order the same: when a later module is past its init, earlier
      ones have had theirs; when a later one is running, no earlier one waits to be started. */
  ghost predicate Staged(ms: seq<Module>) {
    forall i, j :: 0 <= i < j < |ms| ==>
      && (ms[j].state in {Initialized, Running} ==> !(ms[i].state == Registered && ms[i].hasInit))
      && (ms[j].state == Running ==> ms[i].state != Initialized)
  }

  ghost predicate Active(ms: seq<Module>) {
    forall i :: 0 <= i < |ms| ==> ms[i].state != Unregistered
  }

  /** Everything that holds between operations. */
  ghost predicate Good(s: System) {
    && Sound(s) && Active(s.modules) && Staged(s.modules)
    && OrderOf(s.trace) == RunningNames(s.modules)
  }

  lemma {:induction false} RegisterGood(s: System, m: Module)
    requires Good(s)
    ensures Good(Register(s, m))
  {
    hide LifeOf, OrderOf, RunningNames;
    if |s.modules| < MAX_MODULES && !NameTaken(s.modules, m.name) {
      var added := m.(state := Registered);
      var t := Register(s, m);
      OrderStep(s.trace, Added(m.name));
      assert RunningNames(t.modules) == RunningNames(s.modules) by {
        assert QuietFrom(t.modules, |s.modules|);
        RunningQuiet(t.modules, |s.modules|);
        assert t.modules[..|s.modules|] == s.modules;
      }
      forall name
        ensures LifeOf(t.trace, name) == if name == m.name then Fresh else LifeOf(s.trace, name)
      {
        LifeStep(s.trace, Added(m.name), name);
      }
      assert t.modules[|s.modules|] == added;
      forall name | !NameTaken(t.modules, name)
        ensures LifeOf(t.trace, name) == Gone
      {
        assert forall i :: 0 <= i < |s.modules| ==> t.modules[i] == s.modules[i];
      }
    }
  }

  /** What holds after every single step of a pass. */
  ghost predicate Steady(s: System) {
    Sound(s) && OrderOf(s.trace) == RunningNames(s.modules)
  }

  lemma {:induction false} InitOneSteady(s: System, i: nat, ok: bool)
    requires Steady(s) && i < |s.modules|
    ensures Steady(InitOne(s, i, ok))
  {
    hide LifeOf, OrderOf, RunningNames, Tracks, UniqueNames, Sound;
    var m := s.modules[i];
    if m.state == Registered && m.hasInit {
      var (state, e) := (if ok then Initialized else Failed, Init(m.name, ok));
      SetStateSound(s, i, state, e);
      OrderStep(s.trace, e);
      RunningUnchanged(s.modules, i, m.(state := state));
    }
  }

  /** A module that starts goes to the end of the order, so none behind it may be running. */
  lemma {:induction false} StartOneSteady(s: System, i: nat, ok: bool)
    requires Steady(s) && i < |s.modules|
    requires s.modules[i].state == Initialized ==> QuietFrom(s.modules, i)
    ensures Steady(StartOne(s, i, ok))
  {
    hide LifeOf, OrderOf, RunningNames, Tracks, UniqueNames, Sound;
    var m := s.modules[i];
    if m.state == Initialized {
      var up := !m.hasStart || ok;
      var (state, e) := (if up then Running else Failed, Start(m.name, m.hasStart, up));
      SetStateSound(s, i, state, e);
      OrderStep(s.trace, e);
      if up {
        var next := s.modules[i := m.(state := Running)];
        RunningQuiet(s.modules, i);
        RunningLast(next, i);
        assert next[..i] == s.modules[..i];
      } else {
        RunningUnchanged(s.modules, i, m.(state := Failed));
      }
    }
  }

  /** Taking the last running module out of the order. */
  lemma {:induction false} RemoveLast(ms: seq<Module>, i: nat)
    requires UniqueNames(ms) && i < |ms| && QuietFrom(ms, i + 1)
    ensures Without(RunningNames(ms), ms[i].name) == RunningNames(ms[..i])
  {
    hide RunningNames;
    var before := RunningNames(ms[..i]);
    assert ms[i].name !in before by {
      assert forall k :: 0 <= k < i ==> ms[..i][k].name != ms[i].name;
      if ms[i].name in before {
        RunningNameOf(ms[..i], ms[i].name);
      }
    }
    WithoutAbsent(before, ms[i].name);
    if ms[i].state == Running {
      RunningLast(ms, i);
      assert (before + [ms[i].name])[..|before|] == before;
    } else {
      RunningQuiet(ms, i);
    }
  }

  /** The last running module can be stopped or cleaned up. */
  lemma {:induction false} TakeDownSteady(s: System, i: nat, state: ModuleState, e: Event)
    requires Steady(s) && i < |s.modules| && QuietFrom(s.modules, i + 1)
    requires e.name == s.modules[i].name && (e.Stop? || e.Cleanup?) && state != Running
    requires NextLife(LifeIn(s.modules[i].state), e) == LifeIn(state)
    ensures Steady(SetState(s, i, state, e)) && QuietFrom(SetState(s, i, state, e).modules, i)
  {
    hide LifeOf, OrderOf, RunningNames, Tracks, Without, NextLife, LifeIn;
    var next := s.modules[i := s.modules[i].(state := state)];
    SetStateSound(s, i, state, e);
    OrderStep(s.trace, e);
    RemoveLast(s.modules, i);
    RunningQuiet(next, i);
    assert next[..i] == s.modules[..i];
  }

  // ---- What each pass calls ----

  /** The inits of the first `n` modules: of each one that is registered and has an init function. */
  function InitEvents(ms: seq<Module>, answers: Answers, n: nat): seq<Event>
    requires n <= |ms|
  {
    if n == 0 then []
    else
      InitEvents(ms, answers, n - 1)
      + if ms[n - 1].state == Registered && ms[n - 1].hasInit then [Init(ms[n - 1].name, answers(n - 1))] else []
  }

  /** The starts of the first `n` modules: of each one that is initialised. Without a start function there
      is no call, and the start succeeds. */
  function StartEvents(ms: seq<Module>, answers: Answers, n: nat): seq<Event>
    requires n <= |ms|
  {
    if n == 0 then []
    else
      StartEvents(ms, answers, n - 1)
      + if ms[n - 1].state == Initialized
        then [Start(ms[n - 1].name, ms[n - 1].hasStart, !ms[n - 1].hasStart || answers(n - 1))]
        else []
  }

  /** The stops of the modules from the last one down to `n`. */
  function StopEvents(ms: seq<Module>, n: nat): seq<Event>
    requires n <= |ms|
    decreases |ms| - n
  {
    if n == |ms| then []
    else StopEvents(ms, n + 1) + if ms[n].state == Running then [Stop(ms[n].name, ms[n].hasStop)] else []
  }

  /** The cleanups of all modules from the last one down to `n`, with a call where there is a function. */
  function CleanupEvents(ms: seq<Module>, n: nat): seq<Event>
    requires n <= |ms|
    decreases |ms| - n
  {
    if n == |ms| then [] else CleanupEvents(ms, n + 1) + [Cleanup(ms[n].name, ms[n].hasCleanup)]
  }

  /** An init pass calls the init function of every module that is due, once and in order, and each of them
      is initialised or failed by the answer; nothing else changes. */
  lemma {:induction false} InitPassExactly(s: System, answers: Answers, n: nat)
    requires n <= |s.modules|
    ensures InitTo(s, answers, n).trace == s.trace + InitEvents(s.modules, answers, n)
    ensures forall i :: 0 <= i < |s.modules| ==>
              InitTo(s, answers, n).modules[i] ==
              if i < n && s.modules[i].state == Registered && s.modules[i].hasInit
              then s.modules[i].(state := if answers(i) then Initialized else Failed)
              else s.modules[i]
  {
    if n == 0 {
      assert s.trace + [] == s.trace;
    } else {
      InitPassExactly(s, answers, n - 1);
    }
  }

  /** A start pass starts every initialised module, once and in order. */
  lemma {:induction false} StartPassExactly(s: System, answers: Answers, n: nat)
    requires n <= |s.modules|
    ensures StartTo(s, answers, n).trace == s.trace + StartEvents(s.modules, answers, n)
    ensures forall i :: 0 <= i < |s.modules| ==>
              StartTo(s, answers, n).modules[i] ==
              if i < n && s.modules[i].state == Initialized
              then s.modules[i].(state := if !s.modules[i].hasStart || answers(i) then Running else Failed)
              else s.modules[i]
  {
    if n == 0 {
      assert s.trace + [] == s.trace;
    } else {
      StartPassExactly(s, answers, n - 1);
    }
  }

  /** A stop pass stops every running module, once and in reverse order; each of them can be started again. */
  lemma {:induction false} StopPassExactly(s: System, n: nat)
    requires n <= |s.modules|
    ensures StopDownTo(s, n).trace == s.trace + StopEvents(s.modules, n)
    ensures forall i :: 0 <= i < |s.modules| ==>
              StopDownTo(s, n).modules[i] ==
              if n <= i && s.modules[i].state == Running then s.modules[i].(state := Initialized) else s.modules[i]
    decreases |s.modules| - n
  {
    if n == |s.modules| {
      assert s.trace + [] == s.trace;
    } else {
      StopPassExactly(s, n + 1);
    }
  }

  /** A cleanup pass cleans up every module, whatever its state, once and in reverse order. */
  lemma {:induction false} CleanupPassExactly(s: System, n: nat)
    requires n <= |s.modules|
    ensures CleanupDownTo(s, n).trace == s.trace + CleanupEvents(s.modules, n)
    ensures forall i :: 0 <= i < |s.modules| ==>
              CleanupDownTo(s, n).modules[i] ==
              if n <= i then s.modules[i].(state := Unregistered) else s.modules[i]
    decreases |s.modules| - n
  {
    if n == |s.modules| {
      assert s.trace + [] == s.trace;
    } else {
      CleanupPassExactly(s, n + 1);
    }
  }

  /** The answer of a pass is zero exactly when every function that was called succeeded. */
  lemma {:induction false} AnswersExactly(ms: seq<Module>, answers: Answers)
    ensures InitsSucceed(ms, answers, |ms|) <==>
              forall i :: 0 <= i < |ms| && ms[i].state == Registered && ms[i].hasInit ==> answers(i)
    ensures StartsSucceed(ms, answers, |ms|) <==>
              forall i :: 0 <= i < |ms| && ms[i].state == Initialized && ms[i].hasStart ==> answers(i)
  {
  }

  /** A module is registered exactly when there are fewer than 16 and none has its name. */
  lemma {:induction false} RegisteredExactly(s: System, m: Module)
    ensures var next := Register(s, m);
            if |s.modules| < 16 && forall i :: 0 <= i < |s.modules| ==> s.modules[i].name != m.name
            then next.modules == s.modules + [m.(state := Registered)] && next.trace == s.trace + [Added(m.name)]
            else next == s
  {
  }

  // ---- Every pass keeps the order ----

  lemma {:induction false} InitToSteady(s: System, answers: Answers, n: nat)
    requires Steady(s) && n <= |s.modules|
    ensures Steady(InitTo(s, answers, n))
  {
    hide Steady;
    if n > 0 {
      InitToSteady(s, answers, n - 1);
      InitOneSteady(InitTo(s, answers, n - 1), n - 1, answers(n - 1));
    }
  }

  lemma {:induction false} InitAllGood(s: System, answers: Answers)
    requires Good(s)
    ensures Good(InitTo(s, answers, |s.modules|))
  {
    hide InitTo, Steady, Sound, OrderOf, RunningNames;
    assert Steady(s) by { GoodIsSteady(s); }
    InitToSteady(s, answers, |s.modules|);
    InitPassExactly(s, answers, |s.modules|);
    SteadyIsGood(InitTo(s, answers, |s.modules|));
  }

  lemma {:induction false} GoodIsSteady(s: System)
    requires Good(s)
    ensures Steady(s)
  {
  }

  lemma {:induction false} SteadyIsGood(s: System)
    requires Steady(s) && Active(s.modules) && Staged(s.modules)
    ensures Good(s)
  {
  }

  lemma {:induction false} StartToSteady(s: System, answers: Answers, n: nat)
    requires Steady(s) && Staged(s.modules) && n <= |s.modules|
    ensures Steady(StartTo(s, answers, n))
  {
    hide Steady;
    if n > 0 {
      StartToSteady(s, answers, n - 1);
      StartPassExactly(s, answers, n - 1);
      StartOneSteady(StartTo(s, answers, n - 1), n - 1, answers(n - 1));
    }
  }

  lemma {:induction false} StartAllGood(s: System, answers: Answers)
    requires Good(s)
    ensures Good(StartTo(s, answers, |s.modules|))
  {
    hide StartTo, Steady, Sound, OrderOf, RunningNames;
    assert Steady(s) by { GoodIsSteady(s); }
    StartToSteady(s, answers, |s.modules|);
    StartPassExactly(s, answers, |s.modules|);
    SteadyIsGood(StartTo(s, answers, |s.modules|));
  }

  lemma {:induction false} StopDownToSteady(s: System, n: nat)
    requires Steady(s) && n <= |s.modules|
    ensures Steady(StopDownTo(s, n)) && QuietFrom(StopDownTo(s, n).modules, n)
    decreases |s.modules| - n
  {
    hide Steady;
    if n < |s.modules| {
      StopDownToSteady(s, n + 1);
      var b := StopDownTo(s, n + 1);
      var m := b.modules[n];
      if m.state == Running {
        TakeDownSteady(b, n, Initialized, Stop(m.name, m.hasStop));
      }
    }
  }

  lemma {:induction false} StopAllGood(s: System)
    requires Good(s)
    ensures Good(StopDownTo(s, 0))
  {
    hide StopDownTo, Steady, Sound, OrderOf, RunningNames;
    assert Steady(s) by { GoodIsSteady(s); }
    StopDownToSteady(s, 0);
    StopPassExactly(s, 0);
    SteadyIsGood(StopDownTo(s, 0));
  }

  lemma {:induction false} CleanupDownToSteady(s: System, n: nat)
    requires Steady(s) && Active(s.modules) && n <= |s.modules|
    ensures Steady(CleanupDownTo(s, n)) && QuietFrom(CleanupDownTo(s, n).modules, n)
    decreases |s.modules| - n
  {
    hide Steady;
    if n < |s.modules| {
      CleanupDownToSteady(s, n + 1);
      CleanupPassExactly(s, n + 1);
      var b := CleanupDownTo(s, n + 1);
      TakeDownSteady(b, n, Unregistered, Cleanup(b.modules[n].name, b.modules[n].hasCleanup));
    }
  }

  lemma {:induction false} CleanupAllGood(s: System)
    requires Good(s)
    ensures Good(System([], CleanupDownTo(s, 0).trace))
  {
    hide CleanupDownTo, CleanupEvents, LifeOf, OrderOf, RunningNames;
    GoodIsSteady(s);
    CleanupDownToSteady(s, 0);
    CleanupPassExactly(s, 0);
    AllGone(CleanupDownTo(s, 0));
  }

  /** When every module is unregistered, the empty registry tells the same. */
  lemma {:induction false} AllGone(t: System)
    requires Steady(t) && forall i :: 0 <= i < |t.modules| ==> t.modules[i].state == Unregistered
    ensures Good(System([], t.trace))
  {
    hide LifeOf, OrderOf, RunningNames;
    RunningQuiet(t.modules, 0);
    NobodyRuns();
    assert t.modules[..0] == [];
    forall name
      ensures LifeOf(t.trace, name) == Gone
    {
      if NameTaken(t.modules, name) {
        var i :| 0 <= i < |t.modules| && t.modules[i].name == name;
      }
    }
  }

  lemma {:induction false} NobodyRuns()
    ensures RunningNames([]) == []
  {
  }

  // ---- Runs ----

  datatype Operation =
    | RegisterOp(m: Module)
    | InitAllOp(answers: Answers)
    | StartAllOp(answers: Answers)
    | StopAllOp
    | CleanupAllOp

  function Apply(s: System, op: Operation): System {
    match op
    case RegisterOp(m) => Register(s, m)
    case InitAllOp(answers) => InitTo(s, answers, |s.modules|)
    case StartAllOp(answers) => StartTo(s, answers, |s.modules|)
    case StopAllOp => StopDownTo(s, 0)
    case CleanupAllOp => System([], CleanupDownTo(s, 0).trace)
  }

  function Run(ops: seq<Operation>): System {
    if ops == [] then EMPTY else Apply(Run(ops[..|ops| - 1]), ops[|ops| - 1])
  }

  /** Over every interleaving of the operations and all callback results: at most 16 modules with
      different names, states that agree with the callbacks made, no callback out of order for any
      module, and running modules standing in the registry in the order in which they were started. */
  lemma {:induction false} Lifecycle(ops: seq<Operation>)
    ensures Good(Run(ops))
    ensures forall name :: LifeOf(Run(ops).trace, name) != Broken
  {
    if ops != [] {
      var (s, op) := (Run(ops[..|ops| - 1]), ops[|ops| - 1]);
      Lifecycle(ops[..|ops| - 1]);
      hide Good;
      match op
      case RegisterOp(m) => RegisterGood(s, m);
      case InitAllOp(answers) => InitAllGood(s, answers);
      case StartAllOp(answers) => StartAllGood(s, answers);
      case StopAllOp => StopAllGood(s);
      case CleanupAllOp => CleanupAllGood(s);
    }
    NoneBroken(Run(ops));
  }

  lemma {:induction false} NoneBroken(s: System)
    requires Good(s)
    ensures forall name :: LifeOf(s.trace, name) != Broken
  {
  }

  function Names(es: seq<Event>): seq<string> {
    if es == [] then [] else Names(es[..|es| - 1]) + [es[|es| - 1].name]
  }

  function Reversed(o: seq<string>): seq<string> {
    if o == [] then [] else [o[|o| - 1]] + Reversed(o[..|o| - 1])
  }

  lemma {:induction false} NamesConcat(a: seq<Event>, e: Event)
    ensures Names(a + [e]) == Names(a) + [e.name]
  {
    assert (a + [e])[..|a|] == a;
  }

  lemma {:induction false} ReversedStep(o: seq<string>, name: string)
    ensures Reversed(o + [name]) == [name] + Reversed(o)
  {
    assert (o + [name])[..|o|] == o;
  }

  lemma {:induction false} RunningStep(ms: seq<Module>, n: nat)
    requires n < |ms|
    ensures RunningNames(ms[..n + 1]) ==
            if ms[n].state == Running then RunningNames(ms[..n]) + [ms[n].name] else RunningNames(ms[..n])
  {
    assert ms[..n + 1][..n] == ms[..n];
  }

  lemma {:induction false} StopNames(ms: seq<Module>, n: nat)
    requires n <= |ms|
    ensures Names(StopEvents(ms, n)) + Reversed(RunningNames(ms[..n])) == Reversed(RunningNames(ms))
    decreases |ms| - n
  {
    hide RunningNames, Reversed;
    if n == |ms| {
      assert ms[..n] == ms;
    } else {
      StopNames(ms, n + 1);
      RunningStep(ms, n);
      var (es, before) := (StopEvents(ms, n + 1), RunningNames(ms[..n]));
      if ms[n].state == Running {
        NamesConcat(es, Stop(ms[n].name, ms[n].hasStop));
        ReversedStep(before, ms[n].name);
        assert Names(es) + ([ms[n].name] + Reversed(before)) == Names(es) + [ms[n].name] + Reversed(before);
      } else {
        assert es + [] == es;
      }
    }
  }

  /** After any run, stopping everything visits the running modules in exactly the reverse of the order
      in which they were started, and nothing else happens. */
  lemma {:induction false} StopsReverseStarts(ops: seq<Operation>) returns (stops: seq<Event>)
    ensures StopDownTo(Run(ops), 0).trace == Run(ops).trace + stops
    ensures forall i :: 0 <= i < |stops| ==> stops[i].Stop?
    ensures Names(stops) == Reversed(OrderOf(Run(ops).trace))
  {
    var s := Run(ops);
    Lifecycle(ops);
    StopPassExactly(s, 0);
    StopNames(s.modules, 0);
    stops := StopEvents(s.modules, 0);
    OnlyStops(s.modules, 0);
    assert Names(stops) + [] == Names(stops);
  }

  lemma {:induction false} OnlyStops(ms: seq<Module>, n: nat)
    requires n <= |ms|
    ensures forall i :: 0 <= i < |StopEvents(ms, n)| ==> StopEvents(ms, n)[i].Stop?
    decreases |ms| - n
  {
    if n < |ms| {
      OnlyStops(ms, n + 1);
    }
  }

  // ---- What an unbroken life means ----

  /** No prefix of an unbroken trace is broken. */
  lemma {:induction false} PrefixUnbroken(trace: seq<Event>, name: string, n: nat)
    requires n <= |trace| && LifeOf(trace, name) != Broken
    ensures LifeOf(trace[..n], name) != Broken
  {
    if n < |trace| {
      PrefixUnbroken(trace[..|trace| - 1], name, n);
      assert trace[..|trace| - 1][..n] == trace[..n];
    } else {
      assert trace[..n] == trace;
    }
  }

  /** Between two events of a module without a registration in between it is never fresh. */
  lemma {:induction false} StaysInitialised(trace: seq<Event>, name: string, i: nat, j: nat)
    requires i < j <= |trace| && LifeOf(trace, name) != Broken && trace[i].Init? && trace[i].name == name
    requires forall k :: i < k < j ==> trace[k] != Added(name)
    ensures LifeOf(trace[..j], name) != Fresh
    decreases j
  {
    PrefixUnbroken(trace, name, j);
    assert trace[..j][..j - 1] == trace[..j - 1];
    if j > i + 1 {
      StaysInitialised(trace, name, i, j - 1);
    }
  }

  /** Init runs at most once per registration. */
  lemma {:induction false} InitOncePerRegistration(ops: seq<Operation>, name: string, i: nat, j: nat)
    requires i < j < |Run(ops).trace|
    requires Run(ops).trace[i].Init? && Run(ops).trace[i].name == name
    requires Run(ops).trace[j].Init? && Run(ops).trace[j].name == name
    ensures exists k :: i < k < j && Run(ops).trace[k] == Added(name)
  {
    var trace := Run(ops).trace;
    Lifecycle(ops);
    hide Run, Good;
    PrefixUnbroken(trace, name, j + 1);
    assert trace[..j + 1][..j] == trace[..j];
    if forall k :: i < k < j ==> trace[k] != Added(name) {
      StaysInitialised(trace, name, i, j);
    }
  }

  /** The answer of the event was a failure. */
  predicate Fails(e: Event) {
    (e.Init? && !e.ok) || (e.Start? && !e.ok)
  }

  /** The module is cleaned up, with or without a callback. */
  predicate CleansUp(e: Event, name: string) {
    e.Cleanup? && e.name == name
  }

  lemma {:induction false} StaysLost(trace: seq<Event>, name: string, i: nat, j: nat)
    requires i < j <= |trace| && LifeOf(trace, name) != Broken && Fails(trace[i]) && trace[i].name == name
    requires forall k :: i < k < j ==> !CleansUp(trace[k], name)
    ensures LifeOf(trace[..j], name) == Lost
    decreases j
  {
    PrefixUnbroken(trace, name, j);
    assert trace[..j][..j - 1] == trace[..j - 1];
    if j > i + 1 {
      StaysLost(trace, name, i, j - 1);
    }
  }

  /** A module whose init or start failed gets no callback but its cleanup. */
  lemma {:induction false} FailedIsLeftAlone(ops: seq<Operation>, name: string, i: nat, j: nat)
    requires i < j < |Run(ops).trace|
    requires Fails(Run(ops).trace[i]) && Run(ops).trace[i].name == name && Run(ops).trace[j].name == name
    ensures exists k :: i < k <= j && CleansUp(Run(ops).trace[k], name)
  {
    var trace := Run(ops).trace;
    Lifecycle(ops);
    hide Run, Good;
    PrefixUnbroken(trace, name, j + 1);
    assert trace[..j + 1][..j] == trace[..j];
    if forall k :: i < k <= j ==> !CleansUp(trace[k], name) {
      StaysLost(trace, name, i, j);
    }
  }
}
