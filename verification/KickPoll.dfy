/**
 Waiting for a kick from the other processor.  The interrupt handler clears the
 `nokick` flag; the poll loop masks interrupts, tests and sets the flag, and sleeps
 in wfi with interrupts still masked when there was no kick.  A pending interrupt, a
 kick's or any other, wakes wfi even while masked, and is taken before the next
 instruction once unmasked.
 */
module KickPoll {

  /** Where the poll loop is; the non-blocking variant goes from Masked straight to Awake when there was no kick. */
  datatype Pc =
    | Top
    | Masked
    | KickSeen
    | BeforeNotification
    | Asleep
    | Awake

  /** `unseen` is true while some kick has not yet been followed by the start of a notification pass. */
  datatype State = State(
    pc: Pc,
    nokick: bool,
    irqPending: bool,
    irqMasked: bool,
    unseen: bool,
    passes: nat)

  datatype Action = Kick | Interrupt | Mask | TestAndSet(blocking: bool) | Unmask | Wake | OtherInterrupt | Notify

  /** The poll loop's own instructions, as opposed to the other processor and the handler. */
  predicate ByPoll(a: Action) {
    !a.Kick? && !a.Interrupt?
  }

  predicate Enabled(s: State, a: Action) {
    && (ByPoll(a) ==> !(s.irqPending && !s.irqMasked))
    && match a
       case Kick => true
       case Interrupt => s.irqPending && !s.irqMasked
       case Mask => s.pc == Top
       case TestAndSet(_) => s.pc == Masked
       case Unmask => s.pc == KickSeen || s.pc == Awake
       case Wake => s.pc == Asleep && s.irqPending
       case OtherInterrupt => s.pc == Asleep
       case Notify => s.pc == BeforeNotification
  }

  function Next(s: State, a: Action): State
    requires Enabled(s, a)
  {
    match a
    case Kick => s.(irqPending := true, unseen := true)
    case Interrupt => s.(irqPending := false, nokick := false)
    case Mask => s.(pc := Masked, irqMasked := true)
    case TestAndSet(blocking) =>
      s.(nokick := true, pc := if !s.nokick then KickSeen else if blocking then Asleep else Awake)
    case Unmask => s.(irqMasked := false, pc := if s.pc == KickSeen then BeforeNotification else Top)
    case Wake => s.(pc := Awake)
    case OtherInterrupt => s.(pc := Awake)
    case Notify => s.(pc := Top, unseen := false, passes := s.passes + 1)
  }

  /** Initialisation sets the flag before the handler is registered. */
  ghost predicate IsInit(s: State) {
    s == State(Top, true, false, false, false, 0)
  }

  // ---------------------------------------------------------------- invariant

  /** A kick that no notification pass has followed is still recorded somewhere the loop will look. */
  ghost predicate Recorded(s: State) {
    s.unseen ==> s.irqPending || !s.nokick || s.pc == KickSeen || s.pc == BeforeNotification
  }

  ghost predicate Inv(s: State) {
    && Recorded(s)
    && (s.irqMasked <==> s.pc == Masked || s.pc == KickSeen || s.pc == Asleep || s.pc == Awake)
    && (s.pc == Asleep || s.pc == Awake ==> s.nokick)
  }

  lemma StepKeepsInv(s: State, a: Action)
    requires Inv(s) && Enabled(s, a)
    ensures Inv(Next(s, a))
  {
  }

  // ---------------------------------------------------------------- progress

  /** Own steps of the loop left, at most, until the next notification pass starts. */
  ghost function Distance(s: State): nat {
    match s.pc
    case BeforeNotification => 1
    case KickSeen => 2
    case Masked => if s.nokick then 7 else 3
    case Top => 4
    case Awake => 5
    case Asleep => 6
  }

  /** With an unseen kick every own step comes closer to the pass; kicks and interrupts never set it back. */
  lemma StepComesCloser(s: State, a: Action)
    requires Inv(s) && Enabled(s, a) && s.unseen
    ensures ByPoll(a) && !a.Notify? ==> Next(s, a).unseen && Distance(Next(s, a)) < Distance(s)
    ensures !ByPoll(a) ==> Next(s, a).unseen && Distance(Next(s, a)) <= Distance(s)
    ensures a.Notify? ==> Distance(s) == 1
  {
  }

  /** With an unseen kick the loop never stays asleep: it or the handler can move. */
  lemma KickWakes(s: State)
    requires Inv(s) && s.unseen
    ensures s.pc == Asleep ==> s.irqPending && Enabled(s, Wake)
    ensures exists a: Action :: !a.Kick? && Enabled(s, a)
  {
    var a :=
      if s.irqPending && !s.irqMasked then Interrupt
      else match s.pc
           case Top => Mask
           case Masked => TestAndSet(true)
           case KickSeen => Unmask
           case BeforeNotification => Notify
           case Asleep => Wake
           case Awake => Unmask;
    assert Enabled(s, a);
  }

  // ---------------------------------------------------------------- whole runs

  ghost predicate IsRun(tr: seq<State>, acts: seq<Action>) {
    && |tr| == |acts| + 1
    && forall i :: 0 <= i < |acts| ==> Enabled(tr[i], acts[i]) && tr[i + 1] == Next(tr[i], acts[i])
  }

  lemma {:induction false} RunKeepsInv(tr: seq<State>, acts: seq<Action>, k: nat)
    requires IsRun(tr, acts) && IsInit(tr[0]) && k < |tr|
    ensures Inv(tr[k])
  {
    if k == 0 {
    } else {
      RunKeepsInv(tr, acts, k - 1);
      StepKeepsInv(tr[k - 1], acts[k - 1]);
    }
  }

  /** How many of the actions from i up to j are the loop's own. */
  ghost function OwnSteps(acts: seq<Action>, i: nat, j: nat): nat
    requires i <= j <= |acts|
    decreases j - i
  {
    if i == j then 0 else OwnSteps(acts, i, j - 1) + (if ByPoll(acts[j - 1]) then 1 else 0)
  }

  lemma {:induction false} UnseenUntilNotified(tr: seq<State>, acts: seq<Action>, i: nat, j: nat)
    requires IsRun(tr, acts) && IsInit(tr[0]) && i <= j <= |acts|
    requires tr[i].unseen && forall k :: i <= k < j ==> !acts[k].Notify?
    ensures tr[j].unseen && Distance(tr[j]) + OwnSteps(acts, i, j) <= Distance(tr[i])
    decreases j - i
  {
    if i == j {
    } else {
      UnseenUntilNotified(tr, acts, i, j - 1);
      RunKeepsInv(tr, acts, j - 1);
      StepComesCloser(tr[j - 1], acts[j - 1]);
    }
  }

  /** No kick is lost: once the loop has made seven steps of its own after a kick, a notification pass has started since. */
  lemma EveryKickIsNotified(tr: seq<State>, acts: seq<Action>, i: nat, j: nat)
    requires IsRun(tr, acts) && IsInit(tr[0]) && i < j <= |acts|
    requires acts[i] == Kick && OwnSteps(acts, i + 1, j) >= 7
    ensures exists k :: i < k < j && acts[k].Notify?
  {
    if forall k :: i + 1 <= k < j ==> !acts[k].Notify? {
      UnseenUntilNotified(tr, acts, i + 1, j);
    }
  }

  /** While the loop sleeps with a kick unseen, the interrupt is pending, so it will wake. */
  lemma NeverSleepsThroughKick(tr: seq<State>, acts: seq<Action>)
    requires IsRun(tr, acts) && IsInit(tr[0])
    ensures var s := tr[|acts|]; s.pc == Asleep && s.unseen ==> Enabled(s, Wake)
    ensures var s := tr[|acts|]; s.unseen ==> Recorded(s)
  {
    RunKeepsInv(tr, acts, |acts|);
    if tr[|acts|].unseen {
      KickWakes(tr[|acts|]);
    }
  }

  // -------------------------------------------------------------- the routines

  datatype PollResult = Notified | StillAsleep

  /** The flag and the interrupt state of the core; `model` is the same state in the protocol. */
  class Remoteproc {
    var nokick: bool
    var irqPending: bool
    var irqMasked: bool
    ghost var model: State

    ghost predicate Valid()
      reads this
    {
      Inv(model) && nokick == model.nokick && irqPending == model.irqPending && irqMasked == model.irqMasked
    }

    constructor ()
      ensures Valid() && IsInit(model)
    {
      nokick, irqPending, irqMasked := true, false, false;
      model := State(Top, true, false, false, false, 0);
    }

    ghost method Track(a: Action)
      requires Inv(model) && Enabled(model, a)
      modifies this`model
      ensures Inv(model) && model == Next(old(model), a)
    {
      StepKeepsInv(model, a);
      model := Next(model, a);
    }

    method IrqHandler()
      requires Valid() && irqPending && !irqMasked
      modifies this
      ensures Valid() && model == Next(old(model), Interrupt)
    {
      Track(Interrupt);
      irqPending := false;
      nokick := false;
    }

    /** Between two instructions: the other processor may kick, and an unmasked interrupt is taken. */
    method Between(kick: bool)
      requires Valid()
      modifies this
      ensures Valid() && !(irqPending && !irqMasked)
      ensures model.pc == old(model.pc) && model.passes == old(model.passes) && irqMasked == old(irqMasked)
      ensures model.unseen == (old(model.unseen) || kick)
      ensures irqMasked ==> nokick == old(nokick) && irqPending == (old(irqPending) || kick)
      ensures !irqMasked ==> nokick == (old(nokick) && !old(irqPending) && !kick)
    {
      if kick {
        Track(Kick);
        irqPending := true;
      }
      if irqPending && !irqMasked {
        IrqHandler();
      }
    }

    ghost predicate NoKick(kick: nat -> bool, n: nat) {
      forall k: nat :: k < n ==> !kick(k)
    }

    /** Masks interrupts and tests the flag; true if there was a kick. */
    method MaskAndTest(kick: bool, blocking: bool) returns (kicked: bool)
      requires Valid() && model.pc == Top && !(irqPending && !irqMasked)
      modifies this
      ensures Valid() && nokick && irqMasked && kicked == !old(nokick)
      ensures model.pc == (if kicked then KickSeen else if blocking then Asleep else Awake)
      ensures model.unseen == (old(model.unseen) || kick) && irqPending == (old(irqPending) || kick)
      ensures model.passes == old(model.passes)
    {
      Track(Mask);
      irqMasked := true;
      Between(kick);
      Track(TestAndSet(blocking));
      kicked := !nokick;
      nokick := true;
    }

    /** Unmasks interrupts; a kick may arrive before and after. */
    method Restore(before: bool, after: bool)
      requires Valid() && irqMasked && (model.pc == KickSeen || model.pc == Awake)
      modifies this
      ensures Valid() && !irqMasked && !irqPending && model.passes == old(model.passes)
      ensures model.pc == if old(model.pc) == KickSeen then BeforeNotification else Top
      ensures nokick == (old(nokick) && !old(irqPending) && !before && !after)
      ensures model.unseen == (old(model.unseen) || before || after)
    {
      Between(before);
      Track(Unmask);
      irqMasked := false;
      Between(after);
    }

    /** Waits in wfi for a kick or, if one is due, another interrupt. */
    method Sleep(kick: bool, other: bool) returns (woken: bool)
      requires Valid() && model.pc == Asleep && irqMasked
      modifies this
      ensures Valid() && irqMasked && model.passes == old(model.passes)
      ensures woken <==> old(irqPending) || kick || other
      ensures model.pc == if woken then Awake else Asleep
      ensures irqPending == (old(irqPending) || kick) && model.unseen == (old(model.unseen) || kick)
    {
      Between(kick);
      woken := irqPending || other;
      if irqPending {
        Track(Wake);
      } else if other {
        Track(OtherInterrupt);
      }
    }

    /** Lets the pending interrupts be taken, then tests the flag again. */
    method WakeAndTest(before: bool, after: bool, masked: bool) returns (kicked: bool)
      requires Valid() && model.pc == Awake && irqMasked
      modifies this
      ensures Valid() && irqMasked && model.passes == old(model.passes)
      ensures kicked <==> old(irqPending) || before || after
      ensures model.pc == if kicked then KickSeen else Asleep
      ensures !kicked ==> irqPending == masked && model.unseen == (old(model.unseen) || masked)
    {
      Restore(before, after);
      kicked := MaskAndTest(masked, true);
    }

    /**
     Sleeps until a kick; returns after one notification pass, and stays asleep only if every kick has been seen.
     Up to `others` times wfi returns for an interrupt that is no kick, and the loop goes back to sleep.
     */
    method PlatformPoll(kick: nat -> bool, others: nat) returns (res: PollResult)
      requires Valid() && model.pc == Top && !irqPending && !irqMasked
      modifies this
      ensures Valid()
      ensures res.Notified? ==> model.pc == Top && model.passes == old(model.passes) + 1 && !model.unseen
      ensures res.StillAsleep? ==> model.pc == Asleep && model.passes == old(model.passes) && !model.unseen
      ensures res.StillAsleep? <==> old(nokick) && NoKick(kick, 4 * others + 3)
      ensures old(model.unseen) ==> res.Notified?
    {
      Between(kick(0));
      var kicked := MaskAndTest(kick(1), true);
      var j := 0;
      while !kicked
        invariant Valid() && model.passes == old(model.passes) && irqMasked && j <= others
        invariant model.pc == if kicked then KickSeen else Asleep
        invariant !kicked ==> old(nokick) && NoKick(kick, 4 * j + 1)
        invariant !kicked ==> irqPending == kick(4 * j + 1) && model.unseen == kick(4 * j + 1)
        invariant kicked ==> !(old(nokick) && NoKick(kick, 4 * others + 3))
        decreases others - j, !kicked
      {
        var woken := Sleep(kick(4 * j + 2), j < others);
        if !woken {
          return StillAsleep;
        }
        kicked := WakeAndTest(kick(4 * j + 3), kick(4 * j + 4), kick(4 * j + 5));
        j := if kicked then j else j + 1;
      }
      Restore(kick(4 * j + 6), kick(4 * j + 7));
      Track(Notify);
      res := Notified;
    }

    /** Never sleeps; false only if no kick had come, since the flag was last tested, before interrupts were masked. */
    method PlatformPollNoblock(kick: nat -> bool) returns (notified: bool)
      requires Valid() && model.pc == Top && !irqPending && !irqMasked
      modifies this
      ensures Valid() && model.pc == Top && !irqMasked && !irqPending
      ensures model.passes == old(model.passes) + (if notified then 1 else 0)
      ensures notified ==> !model.unseen
      ensures notified <==> !old(nokick) || kick(0)
      ensures nokick <==> !kick(1) && !kick(2) && !kick(3)
      ensures old(model.unseen) ==> notified
    {
      Between(kick(0));
      notified := MaskAndTest(kick(1), false);
      Restore(kick(2), kick(3));
      if notified {
        Track(Notify);
      }
    }
  }
}
