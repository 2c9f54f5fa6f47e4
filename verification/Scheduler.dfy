/**
 The bare-metal scheduler: a timer interrupt runs T0 and divides its rate down to
 software interrupts for T1 and T2, which let more urgent interrupts in while
 their task runs.  The interrupt controller holds one pending bit per interrupt.
 */
module Scheduler {
  import ModArith

  datatype Irq = T0 | T1 | T2

  /** A lower value is more urgent. */
  function Priority(i: Irq): nat {
    match i case T0 => 0 case T1 => 2 * 8 case T2 => 3 * 8
  }

  /** Where a handler is: entered with interrupts masked, inside its task with them enabled, masked again. */
  datatype Stage = Entered | Nested | Leaving

  datatype Frame = Frame(irq: Irq, stage: Stage)

  datatype Config = Config(m1: nat, m2: nat) {
    predicate Valid() {
      0 < m1 && 0 < m2
    }
  }

  /** How often an interrupt was triggered, how often a trigger found its pending bit set, how often a handler started. */
  datatype Tally = Tally(triggered: nat, merged: nat, started: nat)

  /** The stack lists the active handlers, innermost last. */
  datatype State = State(
    stack: seq<Frame>,
    pending: set<Irq>,
    t1Counter: nat,
    t2Counter: nat,
    ticks: nat,
    tally: map<Irq, Tally>)

  datatype Action = TimerFires | Take(i: Irq) | RunT0 | EnableNested | DisableNested | Return

  predicate Tallied(s: State) {
    T0 in s.tally && T1 in s.tally && T2 in s.tally
  }

  function Trigger(s: State, i: Irq): State
    requires i in s.tally
  {
    var t := s.tally[i];
    s.(pending := s.pending + {i},
       tally := s.tally[i := t.(triggered := t.triggered + 1, merged := if i in s.pending then t.merged + 1 else t.merged)])
  }

  /** The divider part of the timer handler. */
  function Divide(cfg: Config, s: State): State
    requires Tallied(s)
  {
    var c1, c2 := s.t1Counter + 1, s.t2Counter + 1;
    var s1 := s.(ticks := s.ticks + 1, t1Counter := if c1 == cfg.m1 then 0 else c1, t2Counter := if c2 == cfg.m2 then 0 else c2);
    var s2 := if c1 == cfg.m1 then Trigger(s1, T1) else s1;
    if c2 == cfg.m2 then Trigger(s2, T2) else s2
  }

  function Top(s: State): Frame
    requires s.stack != []
  {
    s.stack[|s.stack| - 1]
  }

  /** The core accepts interrupts outside handlers and while the innermost handler has enabled nesting. */
  predicate Unmasked(s: State) {
    s.stack == [] || Top(s).stage == Nested
  }

  predicate Enabled(s: State, a: Action) {
    match a
    case TimerFires => true
    case Take(i) =>
      && i in s.pending && Unmasked(s)
      && (s.stack == [] || Priority(i) < Priority(Top(s).irq))
      && forall j :: j in s.pending ==> Priority(i) <= Priority(j)
    case RunT0 => s.stack != [] && Top(s) == Frame(T0, Entered)
    case EnableNested => s.stack != [] && Top(s).irq != T0 && Top(s).stage == Entered
    case DisableNested => s.stack != [] && Top(s).stage == Nested
    case Return => s.stack != [] && Top(s).stage == Leaving
  }

  function WithTop(s: State, stage: Stage): State
    requires s.stack != []
  {
    var k := |s.stack| - 1;
    s.(stack := s.stack[..k] + [Frame(s.stack[k].irq, stage)])
  }

  function Next(cfg: Config, s: State, a: Action): State
    requires Tallied(s) && Enabled(s, a)
  {
    match a
    case TimerFires => Trigger(s, T0)
    case Take(i) =>
      var t := s.tally[i];
      s.(stack := s.stack + [Frame(i, Entered)], pending := s.pending - {i},
         tally := s.tally[i := t.(started := t.started + 1)])
    case RunT0 => WithTop(Divide(cfg, s), Leaving)
    case EnableNested => WithTop(s, Nested)
    case DisableNested => WithTop(s, Leaving)
    case Return => s.(stack := s.stack[..|s.stack| - 1])
  }

  ghost predicate IsInit(s: State) {
    var zero := Tally(0, 0, 0);
    s == State([], {}, 0, 0, 0, map[T0 := zero, T1 := zero, T2 := zero])
  }

  // ---------------------------------------------------------------- invariant

  /** Strictly more urgent towards the top; only handlers that enabled nesting are interrupted; T0 never does. */
  ghost predicate StackOrdered(st: seq<Frame>) {
    && (forall i, j :: 0 <= i < j < |st| ==> Priority(st[j].irq) < Priority(st[i].irq))
    && (forall i :: 0 <= i < |st| - 1 ==> st[i].stage == Nested)
    && (forall i :: 0 <= i < |st| && st[i].irq == T0 ==> st[i].stage != Nested)
  }

  ghost predicate DividersAgree(cfg: Config, s: State)
    requires cfg.Valid() && Tallied(s)
  {
    && s.t1Counter == s.ticks % cfg.m1 && s.tally[T1].triggered == s.ticks / cfg.m1
    && s.t2Counter == s.ticks % cfg.m2 && s.tally[T2].triggered == s.ticks / cfg.m2
  }

  /** Every trigger has started a handler, is pending, or was merged into a pending one. */
  ghost predicate Conserved(s: State, i: Irq)
    requires i in s.tally
  {
    s.tally[i].triggered == s.tally[i].started + s.tally[i].merged + (if i in s.pending then 1 else 0)
  }

  ghost predicate Inv(cfg: Config, s: State) {
    && cfg.Valid() && Tallied(s)
    && StackOrdered(s.stack)
    && DividersAgree(cfg, s)
    && (forall i: Irq :: i in s.tally ==> Conserved(s, i))
    && s.ticks + (if s.stack != [] && Top(s) == Frame(T0, Entered) then 1 else 0) == s.tally[T0].started
  }

  lemma DivideKeepsInv(cfg: Config, s: State)
    requires Inv(cfg, s) && Enabled(s, RunT0)
    ensures Inv(cfg, Next(cfg, s, RunT0))
  {
    ModArith.SuccessorIndex(s.ticks, cfg.m1);
    ModArith.SuccessorQuotient(s.ticks, cfg.m1);
    ModArith.SuccessorIndex(s.ticks, cfg.m2);
    ModArith.SuccessorQuotient(s.ticks, cfg.m2);
  }

  lemma TakeKeepsInv(cfg: Config, s: State, i: Irq)
    requires Inv(cfg, s) && Enabled(s, Take(i))
    ensures Inv(cfg, Next(cfg, s, Take(i)))
  {
    var s' := Next(cfg, s, Take(i));
    assert StackOrdered(s'.stack);
    assert forall j: Irq :: j in s.tally ==> Conserved(s, j);
  }

  /** A handler changing its stage, or returning, keeps the nesting order. */
  lemma StageKeepsInv(cfg: Config, s: State, a: Action)
    requires Inv(cfg, s) && Enabled(s, a) && (a.EnableNested? || a.DisableNested? || a.Return?)
    ensures Inv(cfg, Next(cfg, s, a))
  {
    var s' := Next(cfg, s, a);
    assert StackOrdered(s'.stack);
    assert forall j: Irq :: j in s.tally ==> Conserved(s, j);
  }

  lemma StepKeepsInv(cfg: Config, s: State, a: Action)
    requires Inv(cfg, s) && Enabled(s, a)
    ensures Inv(cfg, Next(cfg, s, a))
  {
    match a
    case TimerFires =>
    case Take(i) => TakeKeepsInv(cfg, s, i);
    case RunT0 => DivideKeepsInv(cfg, s);
    case _ => StageKeepsInv(cfg, s, a);
  }

  // ---------------------------------------------------------------- whole runs

  ghost predicate IsRun(cfg: Config, tr: seq<State>, acts: seq<Action>) {
    && |tr| == |acts| + 1
    && forall i :: 0 <= i < |acts| ==>
         Tallied(tr[i]) && Enabled(tr[i], acts[i]) && tr[i + 1] == Next(cfg, tr[i], acts[i])
  }

  lemma {:induction false} RunKeepsInv(cfg: Config, tr: seq<State>, acts: seq<Action>, k: nat)
    requires cfg.Valid() && IsRun(cfg, tr, acts) && IsInit(tr[0]) && k < |tr|
    ensures Inv(cfg, tr[k])
  {
    if k == 0 {
    } else {
      RunKeepsInv(cfg, tr, acts, k - 1);
      StepKeepsInv(cfg, tr[k - 1], acts[k - 1]);
    }
  }

  function Level(i: Irq): nat {
    match i case T0 => 0 case T1 => 1 case T2 => 2
  }

  lemma {:induction false} LevelsGrow(st: seq<Frame>, depth: nat)
    requires StackOrdered(st) && depth < |st|
    ensures Level(st[|st| - 1 - depth].irq) >= depth
  {
    if depth == 0 {
    } else {
      LevelsGrow(st, depth - 1);
      assert Priority(st[|st| - depth].irq) < Priority(st[|st| - 1 - depth].irq);
    }
  }

  /** At every moment active handlers nest by urgency, no task is re-entered, and T0 is never interrupted. */
  lemma NestingIsByUrgency(cfg: Config, tr: seq<State>, acts: seq<Action>)
    requires cfg.Valid() && IsRun(cfg, tr, acts) && IsInit(tr[0])
    ensures var st := tr[|acts|].stack;
      && |st| <= 3
      && (forall i, j :: 0 <= i < j < |st| ==> Priority(st[j].irq) < Priority(st[i].irq) && st[i].irq != st[j].irq)
      && (forall i :: 0 <= i < |st| && st[i].irq == T0 ==> i == |st| - 1)
  {
    RunKeepsInv(cfg, tr, acts, |acts|);
    var st := tr[|acts|].stack;
    if st != [] {
      LevelsGrow(st, |st| - 1);
    }
  }

  /** After n timer handlers T1 and T2 have been triggered n/m1 and n/m2 times, and every trigger is accounted for. */
  lemma RatesAreDivided(cfg: Config, tr: seq<State>, acts: seq<Action>)
    requires cfg.Valid() && IsRun(cfg, tr, acts) && IsInit(tr[0])
    ensures var s := tr[|acts|];
      && Tallied(s)
      && s.tally[T1].triggered == s.ticks / cfg.m1 && s.t1Counter == s.ticks % cfg.m1
      && s.tally[T2].triggered == s.ticks / cfg.m2 && s.t2Counter == s.ticks % cfg.m2
      && Conserved(s, T0) && Conserved(s, T1) && Conserved(s, T2)
  {
    RunKeepsInv(cfg, tr, acts, |acts|);
  }

  /** When m1 divides m2, a timer handler that triggers T2 also triggers T1. */
  lemma SlowTickIsFastTick(cfg: Config, s: State)
    requires Inv(cfg, s) && Enabled(s, RunT0) && cfg.m2 % cfg.m1 == 0
    ensures var s' := Next(cfg, s, RunT0);
      s'.tally[T2].triggered > s.tally[T2].triggered ==> s'.tally[T1].triggered > s.tally[T1].triggered
  {
    ModArith.SuccessorIndex(s.ticks, cfg.m1);
    ModArith.SuccessorIndex(s.ticks, cfg.m2);
    if (s.ticks + 1) % cfg.m2 == 0 {
      ModArith.DivisibilityIsTransitive(s.ticks + 1, cfg.m1, cfg.m2);
    }
  }

  // ---------------------------------------------------------------- draining

  /** Steps a handler still needs; T0 may trigger both others on its way. */
  ghost function FrameWork(f: Frame): nat {
    match f.stage
    case Entered => if f.irq == T0 then 10 else 3
    case Nested => 2
    case Leaving => 1
  }

  ghost function StackWork(st: seq<Frame>): nat {
    if st == [] then 0 else StackWork(st[..|st| - 1]) + FrameWork(st[|st| - 1])
  }

  ghost function PendingWork(p: set<Irq>): nat {
    (if T0 in p then 11 else 0) + (if T1 in p then 4 else 0) + (if T2 in p then 4 else 0)
  }

  ghost function Work(s: State): nat {
    StackWork(s.stack) + PendingWork(s.pending)
  }

  lemma TopWork(s: State, stage: Stage)
    requires s.stack != []
    ensures StackWork(WithTop(s, stage).stack)
      == StackWork(s.stack) - FrameWork(Top(s)) + FrameWork(Frame(Top(s).irq, stage))
  {
    var k := |s.stack| - 1;
    assert WithTop(s, stage).stack[..k] == s.stack[..k];
  }

  lemma StepDrains(cfg: Config, s: State, a: Action)
    requires Tallied(s) && Enabled(s, a) && !a.TimerFires?
    ensures Work(Next(cfg, s, a)) < Work(s)
  {
    match a
    case Take(i) =>
      assert (s.stack + [Frame(i, Entered)])[..|s.stack|] == s.stack;
    case RunT0 =>
      TopWork(Divide(cfg, s), Leaving);
    case EnableNested =>
      TopWork(s, Nested);
    case DisableNested =>
      TopWork(s, Leaving);
    case Return =>
  }

  lemma SomethingToDo(s: State) returns (a: Action)
    requires s.stack != [] || s.pending != {}
    ensures Enabled(s, a) && !a.TimerFires?
  {
    if s.stack != [] {
      var f := Top(s);
      a := if f.stage == Leaving then Return else if f.stage == Nested then DisableNested
           else if f.irq == T0 then RunT0 else EnableNested;
    } else {
      var j :| j in s.pending;
      assert j == T0 || j == T1 || j == T2;
      a := Take(if T0 in s.pending then T0 else if T1 in s.pending then T1 else T2);
    }
  }

  /** Between timer ticks the scheduler can always go on until every handler has returned, and every step brings it closer. */
  lemma HandlersDrain(cfg: Config, s: State)
    requires Tallied(s)
    ensures forall a :: Enabled(s, a) && !a.TimerFires? ==> Work(Next(cfg, s, a)) < Work(s)
    ensures (forall a: Action :: Enabled(s, a) ==> a.TimerFires?) <==> s.stack == [] && s.pending == {}
  {
    forall a | Enabled(s, a) && !a.TimerFires?
      ensures Work(Next(cfg, s, a)) < Work(s)
    {
      StepDrains(cfg, s, a);
    }
    if s.stack != [] || s.pending != {} {
      var a := SomethingToDo(s);
    }
  }

  /** The dividers as the timer handler keeps them. */
  class Dividers {
    const t1Multiplier: nat
    const t2Multiplier: nat
    var t1Counter: nat
    var t2Counter: nat
    ghost var ticks: nat

    ghost predicate Valid()
      reads this
    {
      && 0 < t1Multiplier && 0 < t2Multiplier
      && t1Counter == ticks % t1Multiplier && t2Counter == ticks % t2Multiplier
    }

    constructor (t1Multiplier: nat, t2Multiplier: nat)
      requires 0 < t1Multiplier && 0 < t2Multiplier
      ensures Valid() && ticks == 0 && this.t1Multiplier == t1Multiplier && this.t2Multiplier == t2Multiplier
    {
      this.t1Multiplier, this.t2Multiplier := t1Multiplier, t2Multiplier;
      t1Counter, t2Counter, ticks := 0, 0, 0;
    }

    method TimerT0Interrupt() returns (triggerT1: bool, triggerT2: bool)
      requires Valid()
      modifies this
      ensures Valid() && ticks == old(ticks) + 1
      ensures triggerT1 <==> ticks % t1Multiplier == 0
      ensures triggerT2 <==> ticks % t2Multiplier == 0
    {
      ModArith.SuccessorIndex(ticks, t1Multiplier);
      ModArith.SuccessorIndex(ticks, t2Multiplier);
      triggerT1, triggerT2 := false, false;
      t1Counter := t1Counter + 1;
      t2Counter := t2Counter + 1;
      ticks := ticks + 1;
      if t1Counter == t1Multiplier {
        t1Counter := 0;
        triggerT1 := true;
      }
      if t2Counter == t2Multiplier {
        t2Counter := 0;
        triggerT2 := true;
      }
    }
  }

  /** The dividers stand where the protocol's counters do. */
  ghost predicate Drives(cfg: Config, d: Dividers, s: State)
    reads d
  {
    && d.Valid() && d.t1Multiplier == cfg.m1 && d.t2Multiplier == cfg.m2
    && d.ticks == s.ticks && d.t1Counter == s.t1Counter && d.t2Counter == s.t2Counter
  }

  /** The timer handler: runs the dividers, then triggers the software interrupts they ask for. */
  method RunTimerHandler(cfg: Config, d: Dividers, s: State) returns (s': State)
    requires Inv(cfg, s) && Drives(cfg, d, s) && Enabled(s, RunT0)
    modifies d
    ensures s' == Next(cfg, s, RunT0) && Drives(cfg, d, s')
  {
    ModArith.SuccessorIndex(s.ticks, cfg.m1);
    ModArith.SuccessorIndex(s.ticks, cfg.m2);
    var t1, t2 := d.TimerT0Interrupt();
    s' := s.(ticks := s.ticks + 1, t1Counter := d.t1Counter, t2Counter := d.t2Counter);
    if t1 {
      s' := Trigger(s', T1);
    }
    if t2 {
      s' := Trigger(s', T2);
    }
    s' := WithTop(s', Leaving);
  }

  const INITIAL := State([], {}, 0, 0, 0, map[T0 := Tally(0, 0, 0), T1 := Tally(0, 0, 0), T2 := Tally(0, 0, 0)])

  /** The state after the events, those not possible at their moment skipped. */
  ghost function After(cfg: Config, events: seq<Action>): (s: State)
    ensures Tallied(s)
  {
    if events == [] then INITIAL
    else
      var s, e := After(cfg, events[..|events| - 1]), events[|events| - 1];
      if Enabled(s, e) then Next(cfg, s, e) else s
  }

  /** Any sequence of interrupt events, those not possible at their moment skipped, with the timer handler's own dividers. */
  method RunSystem(cfg: Config, events: seq<Action>) returns (s: State, d: Dividers)
    requires cfg.Valid()
    ensures s == After(cfg, events)
    ensures fresh(d) && Inv(cfg, s) && Drives(cfg, d, s)
    ensures s.tally[T1].triggered == d.ticks / cfg.m1 && s.tally[T2].triggered == d.ticks / cfg.m2
    ensures forall i, j :: 0 <= i < j < |s.stack| ==> Priority(s.stack[j].irq) < Priority(s.stack[i].irq)
  {
    d := new Dividers(cfg.m1, cfg.m2);
    s := INITIAL;
    for i := 0 to |events|
      invariant fresh(d) && Inv(cfg, s) && Drives(cfg, d, s)
      invariant s == After(cfg, events[..i])
    {
      assert events[..i + 1][..i] == events[..i];
      if Enabled(s, events[i]) {
        StepKeepsInv(cfg, s, events[i]);
        if events[i].RunT0? {
          s := RunTimerHandler(cfg, d, s);
        } else {
          s := Next(cfg, s, events[i]);
        }
      }
    }
    assert events[..|events|] == events;
  }

  // ------------------------------------------------------- preemption happens

  /** An interrupt is taken exactly if it is pending, nothing pending is more urgent, and the innermost handler, if any, has enabled nesting and is less urgent. */
  lemma TakenExactlyWhen(cfg: Config, s: State, i: Irq)
    requires Tallied(s)
    ensures Enabled(s, Take(i)) <==>
      && i in s.pending
      && (i == T1 ==> T0 !in s.pending) && (i == T2 ==> T0 !in s.pending && T1 !in s.pending)
      && (s.stack != [] ==>
            var top := s.stack[|s.stack| - 1];
            && top.stage == Nested
            && ((i == T0 && top.irq != T0) || (i == T1 && top.irq == T2)))
    ensures Enabled(s, Take(i)) ==>
      && Next(cfg, s, Take(i)).stack == s.stack + [Frame(i, Entered)]
      && Next(cfg, s, Take(i)).pending == s.pending - {i}
  {
    match i
    case T0 =>
    case T1 =>
    case T2 =>
  }

  /** A run from the start that ends in s. */
  ghost predicate Reaches(cfg: Config, s: State) {
    exists tr: seq<State>, acts: seq<Action> :: IsRun(cfg, tr, acts) && IsInit(tr[0]) && tr[|acts|] == s
  }

  lemma Reach(cfg: Config, s: State, a: Action) returns (s': State)
    requires Reaches(cfg, s) && Tallied(s) && Enabled(s, a)
    ensures Reaches(cfg, s') && Tallied(s') && s' == Next(cfg, s, a)
  {
    s' := Next(cfg, s, a);
    var tr: seq<State>, acts: seq<Action> :| IsRun(cfg, tr, acts) && IsInit(tr[0]) && tr[|acts|] == s;
    RunExtended(cfg, tr, acts, a);
    var tr', acts' := tr + [s'], acts + [a];
    assert tr'[0] == tr[0] && tr'[|acts'|] == s';
  }

  lemma RunExtended(cfg: Config, tr: seq<State>, acts: seq<Action>, a: Action)
    requires IsRun(cfg, tr, acts) && Tallied(tr[|acts|]) && Enabled(tr[|acts|], a)
    ensures IsRun(cfg, tr + [Next(cfg, tr[|acts|], a)], acts + [a])
  {
    var tr', acts' := tr + [Next(cfg, tr[|acts|], a)], acts + [a];
    forall i | 0 <= i < |acts'|
      ensures Tallied(tr'[i]) && Enabled(tr'[i], acts'[i]) && tr'[i + 1] == Next(cfg, tr'[i], acts'[i])
    {
      if i < |acts| {
        assert tr'[i] == tr[i] && tr'[i + 1] == tr[i + 1] && acts'[i] == acts[i];
      }
    }
  }

  /** With both dividers at 1: one tick of the timer, its handler run to the end, T1 and T2 pending. */
  lemma OneTick(s: State) returns (s': State)
    requires Reaches(Config(1, 1), s) && Tallied(s) && T0 !in s.pending && s.t1Counter == s.t2Counter == 0
    requires s.stack == [] || (Top(s).stage == Nested && Top(s).irq != T0)
    ensures Reaches(Config(1, 1), s') && Tallied(s') && s'.stack == s.stack
    ensures s'.pending == {T1, T2} + s.pending && s'.t1Counter == s'.t2Counter == 0
  {
    var cfg := Config(1, 1);
    s' := Reach(cfg, s, TimerFires);
    s' := Reach(cfg, s', Take(T0));
    s' := Reach(cfg, s', RunT0);
    assert s'.stack == s.stack + [Frame(T0, Leaving)];
    s' := Reach(cfg, s', Return);
  }

  /** An interrupt is taken and enables nesting. */
  lemma Enter(s: State, i: Irq) returns (s': State)
    requires Reaches(Config(1, 1), s) && Tallied(s) && i != T0 && Enabled(s, Take(i))
    ensures Reaches(Config(1, 1), s') && Tallied(s') && s'.stack == s.stack + [Frame(i, Nested)]
    ensures s'.pending == s.pending - {i} && s'.t1Counter == s.t1Counter && s'.t2Counter == s.t2Counter
  {
    s' := Reach(Config(1, 1), s, Take(i));
    s' := Reach(Config(1, 1), s', EnableNested);
  }

  /** The innermost handler runs to its end. */
  lemma Leave(s: State) returns (s': State)
    requires Reaches(Config(1, 1), s) && Tallied(s) && s.stack != [] && Top(s).stage == Nested
    ensures Reaches(Config(1, 1), s') && Tallied(s') && s'.stack == s.stack[..|s.stack| - 1]
    ensures s'.pending == s.pending && s'.t1Counter == s.t1Counter && s'.t2Counter == s.t2Counter
  {
    s' := Reach(Config(1, 1), s, DisableNested);
    s' := Reach(Config(1, 1), s', Return);
  }

  /** T2 runs, with nothing else active. */
  lemma SlowTaskRuns() returns (s: State)
    ensures Reaches(Config(1, 1), s) && Tallied(s) && s.t1Counter == s.t2Counter == 0
    ensures s.stack == [Frame(T2, Nested)] && s.pending == {}
  {
    s := INITIAL;
    assert IsRun(Config(1, 1), [s], []) && [s][0] == s;
    s := OneTick(s);
    s := Enter(s, T1);
    s := Leave(s);
    s := Enter(s, T2);
  }

  /** All three levels can be active at once: T1 interrupts T2, and T0 interrupts T1. */
  lemma ThreeLevelsNest() returns (s: State)
    ensures Reaches(Config(1, 1), s)
    ensures s.stack == [Frame(T2, Nested), Frame(T1, Nested), Frame(T0, Entered)]
  {
    s := SlowTaskRuns();
    s := OneTick(s);
    s := Enter(s, T1);
    s := Reach(Config(1, 1), s, TimerFires);
    s := Reach(Config(1, 1), s, Take(T0));
  }

  // -------------------------------------------------- the configured multipliers

  const CONFIGURED := Config(4, 20)

  /** At 20 kHz: T1 runs at a quarter and T2 at a twentieth of the rate, and T2 is only ever triggered together with T1. */
  lemma ConfiguredRates(tr: seq<State>, acts: seq<Action>)
    requires IsRun(CONFIGURED, tr, acts) && IsInit(tr[0])
    ensures var s := tr[|acts|];
      && Tallied(s)
      && s.tally[T1].triggered == s.ticks / 4 && s.tally[T2].triggered == s.ticks / 20
      && (Enabled(s, RunT0) ==>
            var s' := Next(CONFIGURED, s, RunT0);
            s'.tally[T2].triggered > s.tally[T2].triggered ==> s'.tally[T1].triggered > s.tally[T1].triggered)
  {
    RatesAreDivided(CONFIGURED, tr, acts);
    RunKeepsInv(CONFIGURED, tr, acts, |acts|);
    if Enabled(tr[|acts|], RunT0) {
      SlowTickIsFastTick(CONFIGURED, tr[|acts|]);
    }
  }
}
