/** The routines on both ends of the statistics channel, with their arrays and counters updated in place. */
module StatsCode {
  import opened Bytes
  import opened StatsChannel
  import ModArith

  datatype Sent = NotSent | Sent(stats: Stats)

  /** `memmove` one entry up, then store the newest value in front. */
  method ShiftIn(a: array<nat>, x: nat)
    requires a.Length > 0
    modifies a
    ensures a[0] == x
    ensures forall i :: 0 < i < a.Length ==> a[i] == old(a[i - 1])
  {
    for i := a.Length - 1 downto 0
      invariant forall j :: i < j < a.Length ==> a[j] == old(a[j - 1])
      invariant forall j :: 0 <= j <= i ==> a[j] == old(a[j])
    {
      a[i + 1] := a[i];
    }
    a[0] := x;
  }

  /** What register entry i holds after the measurements h. */
  ghost function StartEntry(h: seq<Sample>, i: nat): nat {
    if i < |h| then Low(h[|h| - 1 - i].start) else 0
  }

  ghost function DurationEntry(h: seq<Sample>, i: nat): nat {
    if i < |h| then Low(h[|h| - 1 - i].duration) else 0
  }

  lemma EntriesShift(h: seq<Sample>, x: Sample)
    ensures StartEntry(h + [x], 0) == Low(x.start) && DurationEntry(h + [x], 0) == Low(x.duration)
    ensures forall i :: 0 < i ==> StartEntry(h + [x], i) == StartEntry(h, i - 1)
    ensures forall i :: 0 < i ==> DurationEntry(h + [x], i) == DurationEntry(h, i - 1)
  {
  }

  /** The bare-metal bookkeeping of one time level. */
  class TimeLevel {
    const startTimes: array<nat>
    const durations: array<nat>
    const sendDelay: nat
    var iterationNumber: nat
    var totalDroppedPackets: nat
    var initDone: bool
    var sendCounter: nat
    ghost var history: seq<Sample>
    ghost var ticks: nat

    /** Register entry i belongs to the i-th newest measurement. */
    ghost predicate Registers()
      reads this, startTimes, durations
    {
      && startTimes != durations && startTimes.Length == durations.Length > 0
      && (forall i :: 0 <= i < startTimes.Length ==> startTimes[i] == StartEntry(history, i))
      && (forall i :: 0 <= i < durations.Length ==> durations[i] == DurationEntry(history, i))
    }

    ghost predicate Valid()
      reads this, startTimes, durations
    {
      Registers() && iterationNumber == Low(|history|)
    }

    /** The first tick only warms up; the send counter counts it nevertheless. */
    ghost predicate OnSchedule()
      reads this
    {
      && 2 <= sendDelay && sendCounter == ticks % sendDelay
      && (initDone <==> ticks > 0) && |history| == if ticks == 0 then 0 else ticks - 1
    }

    constructor (b: nat, sendDelay: nat)
      requires 0 < b
      ensures Valid() && fresh(startTimes) && fresh(durations) && startTimes.Length == b
      ensures this.sendDelay == sendDelay && history == [] && ticks == 0 && totalDroppedPackets == 0
      ensures 2 <= sendDelay ==> OnSchedule()
    {
      startTimes := new nat[b](_ => 0);
      durations := new nat[b](_ => 0);
      this.sendDelay := sendDelay;
      iterationNumber, totalDroppedPackets, initDone, sendCounter := 0, 0, false, 0;
      history, ticks := [], 0;
    }

    method Measure(start: nat, end: nat)
      requires Registers() && start <= end
      modifies startTimes, durations, this`history
      ensures Registers() && history == old(history) + [Sample(start, end - start)]
    {
      ShiftIn(startTimes, Low(start));
      ShiftIn(durations, Low(end - start));
      history := history + [Sample(start, end - start)];
      EntriesShift(old(history), Sample(start, end - start));
    }

    method Packet() returns (st: Stats)
      requires Registers() && history != [] && iterationNumber == Low(|history| - 1)
      ensures st == PacketOf(history, |history| - 1, startTimes.Length)
    {
      st := Stats(iterationNumber, startTimes[..], durations[..]);
      ghost var p := PacketOf(history, |history| - 1, startTimes.Length);
      assert st.startTimes == p.startTimes && st.durations == p.durations;
    }

    /** T1 and T2: every run sends its register; a refused packet is counted as dropped. */
    method Iterate(start: nat, end: nat, accepted: bool) returns (st: Stats)
      requires Valid() && start <= end
      modifies startTimes, durations, this`history, this`iterationNumber, this`totalDroppedPackets
      ensures Valid() && history == old(history) + [Sample(start, end - start)]
      ensures st == PacketOf(history, |old(history)|, startTimes.Length)
      ensures totalDroppedPackets == if accepted then old(totalDroppedPackets) else Low(old(totalDroppedPackets) + 1)
    {
      Measure(start, end);
      st := Packet();
      if !accepted {
        totalDroppedPackets := Low(totalDroppedPackets + 1);
      }
      iterationNumber := Low(iterationNumber + 1);
    }

    /** T0 of the shared-memory variant: measures every tick but the first, sends every `sendDelay` ticks. */
    method T0Shm(start: nat, end: nat, accepted: bool) returns (sent: Sent)
      requires Valid() && OnSchedule() && start <= end
      modifies startTimes, durations, this
      ensures Valid() && OnSchedule() && ticks == old(ticks) + 1
      ensures old(history) <= history && (old(ticks) > 0 ==> history == old(history) + [Sample(start, end - start)])
      ensures sent.Sent? <==> ticks % sendDelay == 0
      ensures totalDroppedPackets == if sent.Sent? && !accepted then Low(old(totalDroppedPackets) + 1) else old(totalDroppedPackets)
      ensures sent.Sent? ==> ticks >= 2 && sent.stats == PacketOf(history, ticks - 2, startTimes.Length)
    {
      ModArith.SuccessorIndex(ticks, sendDelay);
      sent := NotSent;
      sendCounter := sendCounter + 1;
      ticks := ticks + 1;
      if initDone {
        var due := sendCounter == sendDelay;
        if due {
          sendCounter := 0;
        }
        var st := Iterate(start, end, accepted || !due);
        if due {
          sent := Sent(st);
        }
      } else {
        initDone := true;
      }
    }
  }

  /** The Linux side. */
  class StatsProcessing {
    var iterationNumber: int
    var totalMissedStats: nat
    var prevStartTimeLow: nat
    var startTimeHigh: nat
    var iterationNumbers: seq<nat>
    var timeLevelStartTimes: seq<nat>
    var timeLevelDurations: seq<nat>

    ghost predicate Valid()
      reads this
    {
      |iterationNumbers| == |timeLevelStartTimes| == |timeLevelDurations|
    }

    ghost function View(): Consumer
      requires Valid()
      reads this
    {
      Consumer(iterationNumber, totalMissedStats, prevStartTimeLow, startTimeHigh,
               seq(|iterationNumbers|, i requires 0 <= i < |iterationNumbers| && Valid() reads this =>
                 Record(iterationNumbers[i], timeLevelStartTimes[i], timeLevelDurations[i])))
    }

    constructor ()
      ensures Valid() && View() == FRESH
    {
      iterationNumber, totalMissedStats, prevStartTimeLow, startTimeHigh := -1, 0, 0, 0;
      iterationNumbers, timeLevelStartTimes, timeLevelDurations := [], [], [];
    }

    method Append(st: Stats, i: nat)
      requires Valid() && i < |st.startTimes| == |st.durations|
      modifies this
      ensures Valid() && View() == Push(old(View()), st, i)
    {
      var startTimeLow := st.startTimes[i];
      if startTimeLow < prevStartTimeLow {
        startTimeHigh := Low(startTimeHigh + 1);
      }
      prevStartTimeLow := startTimeLow;
      iterationNumbers := iterationNumbers + [Low(st.iteration - i)];
      timeLevelStartTimes := timeLevelStartTimes + [startTimeHigh * TWO_TO_32 + startTimeLow];
      timeLevelDurations := timeLevelDurations + [st.durations[i]];
      assert View().records == old(View().records) + [Push(old(View()), st, i).records[|old(View().records)|]];
    }

    /** Takes over the entries that are new, oldest first, and counts those that fell out of the register. */
    method AddStats(st: Stats)
      requires Valid() && |st.startTimes| == |st.durations|
      modifies this
      ensures Valid() && View() == Add(old(View()), st)
    {
      if st.iteration > iterationNumber {
        var itCount := Low(st.iteration - iterationNumber);
        var backlog := |st.startTimes|;
        if itCount > backlog {
          totalMissedStats := Low(totalMissedStats + (itCount - backlog));
          itCount := backlog;
        }
        ghost var c := View();
        assert c.records == old(View().records);
        for i := itCount downto 0
          invariant Valid() && iterationNumber == old(iterationNumber)
          invariant Replay(View(), st, i) == Replay(c, st, itCount)
        {
          Append(st, i);
        }
        ghost var last := View();
        iterationNumber := st.iteration;
        assert View().records == last.records;
      }
    }
  }

  // ---------------------------------------------- producer, channel and consumer

  ghost function Drops(arrived: seq<bool>): nat {
    if arrived == [] then 0 else Drops(arrived[..|arrived| - 1]) + (if arrived[|arrived| - 1] then 0 else 1)
  }

  lemma CountedModulo(x: nat)
    ensures Low(Low(x) + 1) == Low(x + 1)
  {
  }

  /** The arrival pattern after a tick: one that sends adds an entry. */
  ghost function Extended(arrived: seq<bool>, sends: bool, accepted: bool): seq<bool> {
    if sends then arrived + [accepted] else arrived
  }

  lemma SendTicks(t: nat)
    requires 0 < t
    ensures t % SEND_DELAY == 0 ==> t == SEND_DELAY * ((t - 1) / SEND_DELAY + 1)
    ensures t / SEND_DELAY == (t - 1) / SEND_DELAY + (if t % SEND_DELAY == 0 then 1 else 0)
    ensures SEND_DELAY * (t / SEND_DELAY) <= t
    ensures t % SEND_DELAY == 0 ==> SentIteration((t - 1) / SEND_DELAY) == t - 2
  {
  }

  lemma SendingTick(h: seq<Sample>, h': seq<Sample>, arrived: seq<bool>, n: nat, accepted: bool)
    requires h <= h' && SEND_DELAY * |arrived| <= |h| + 1 && n == SentIteration(|arrived|) < |h'|
    ensures AfterSends(h', arrived + [accepted])
      == if accepted then Add(AfterSends(h, arrived), PacketOf(h', n, BACKLOG)) else AfterSends(h, arrived)
  {
    AfterSendsStays(h, h', arrived);
    AfterSendsStep(h', arrived, accepted);
  }

  lemma PatternLength(arrived: seq<bool>, t: nat, accepted: bool)
    requires 0 < t && |arrived| == (t - 1) / SEND_DELAY
    ensures var sends := t % SEND_DELAY == 0;
      && |Extended(arrived, sends, accepted)| == t / SEND_DELAY
      && SEND_DELAY * |Extended(arrived, sends, accepted)| <= t
      && (sends ==> 2 <= t && SentIteration(|arrived|) == t - 2)
  {
    SendTicks(t);
  }

  lemma DropsCounted(arrived: seq<bool>, sends: bool, accepted: bool)
    ensures Low(Drops(Extended(arrived, sends, accepted)))
      == if sends && !accepted then Low(Low(Drops(arrived)) + 1) else Low(Drops(arrived))
  {
    CountedModulo(Drops(arrived));
    assert (arrived + [accepted])[..|arrived|] == arrived;
  }

  /** The shared-memory variant's T0 task after the sends of the given pattern. */
  ghost predicate HasSent(p: TimeLevel, arrived: seq<bool>)
    reads p, p.startTimes, p.durations
  {
    && p.Valid() && p.OnSchedule() && p.sendDelay == SEND_DELAY && p.startTimes.Length == BACKLOG
    && |arrived| == p.ticks / SEND_DELAY && SEND_DELAY * |arrived| <= |p.history| + 1
    && p.totalDroppedPackets == Low(Drops(arrived))
  }

  /** The tick as the producer sees it. */
  method Produce(p: TimeLevel, ghost arrived: seq<bool>, start: nat, end: nat, accepted: bool) returns (sent: Sent)
    requires HasSent(p, arrived) && start <= end
    modifies p, p.startTimes, p.durations
    ensures p.ticks == old(p.ticks) + 1 && old(p.history) <= p.history
    ensures old(p.ticks) > 0 ==> p.history == old(p.history) + [Sample(start, end - start)]
    ensures sent.Sent? <==> p.ticks % 8 == 0
    ensures HasSent(p, Extended(arrived, sent.Sent?, accepted))
    ensures sent.Sent? ==> |sent.stats.startTimes| == 16
    ensures sent.Sent? ==>
      && 0 <= SentIteration(|arrived|) < |p.history|
      && sent.stats == PacketOf(p.history, SentIteration(|arrived|), BACKLOG)
  {
    PatternLength(arrived, p.ticks + 1, accepted);
    sent := p.T0Shm(start, end, accepted);
    DropsCounted(arrived, sent.Sent?, accepted);
  }

  /** The tick as the consumer sees it. */
  method Tick(p: TimeLevel, ghost arrived: seq<bool>, start: nat, end: nat, accepted: bool) returns (sent: Sent)
    requires HasSent(p, arrived) && start <= end
    modifies p, p.startTimes, p.durations
    ensures p.ticks == old(p.ticks) + 1 && old(p.history) <= p.history
    ensures old(p.ticks) > 0 ==> p.history == old(p.history) + [Sample(start, end - start)]
    ensures sent.Sent? <==> p.ticks % SEND_DELAY == 0
    ensures HasSent(p, Extended(arrived, sent.Sent?, accepted))
    ensures sent.Sent? ==> |sent.stats.startTimes| == |sent.stats.durations|
    ensures AfterSends(p.history, Extended(arrived, sent.Sent?, accepted))
      == var c := AfterSends(old(p.history), arrived); if sent.Sent? && accepted then Add(c, sent.stats) else c
  {
    sent := Produce(p, arrived, start, end, accepted);
    if sent.Sent? {
      SendingTick(old(p.history), p.history, arrived, SentIteration(|arrived|), accepted);
    } else {
      AfterSendsStays(old(p.history), p.history, arrived);
    }
  }

  /** Producer and consumer after the given arrivals. */
  ghost predicate InStep(p: TimeLevel, c: StatsProcessing, arrived: seq<bool>)
    reads p, p.startTimes, p.durations, c
  {
    HasSent(p, arrived) && c.Valid() && c.View() == AfterSends(p.history, arrived)
  }

  /** At start-up the registers are cleared and nothing has been sent. */
  method StartShm() returns (p: TimeLevel, c: StatsProcessing)
    ensures fresh(p) && fresh(p.startTimes) && fresh(p.durations) && fresh(c)
    ensures InStep(p, c, []) && p.ticks == 0
  {
    p := new TimeLevel(BACKLOG, SEND_DELAY);
    c := new StatsProcessing();
  }

  method TickShm(p: TimeLevel, c: StatsProcessing, ghost arrived: seq<bool>, start: nat, end: nat, accepted: bool)
    requires InStep(p, c, arrived) && start <= end
    modifies p, p.startTimes, p.durations, c
    ensures p.ticks == old(p.ticks) + 1 && old(p.history) <= p.history
    ensures old(p.ticks) > 0 ==> p.history == old(p.history) + [Sample(start, end - start)]
    ensures InStep(p, c, Extended(arrived, p.ticks % SEND_DELAY == 0, accepted))
  {
    var sent := Tick(p, arrived, start, end, accepted);
    if sent.Sent? && accepted {
      c.AddStats(sent.stats);
    }
  }

  /** The first |arrived| sends fared as `accepted` says. */
  ghost predicate Follows(arrived: seq<bool>, accepted: nat -> bool) {
    forall k :: 0 <= k < |arrived| ==> arrived[k] == accepted(k)
  }

  lemma FollowsOn(arrived: seq<bool>, t: nat, accepted: nat -> bool)
    requires Follows(arrived, accepted) && 0 < t && |arrived| == (t - 1) / SEND_DELAY
    ensures Follows(Extended(arrived, t % SEND_DELAY == 0, accepted((t - 1) / SEND_DELAY)), accepted)
  {
  }

  lemma InStepIsExact(p: TimeLevel, c: StatsProcessing, arrived: seq<bool>)
    requires InStep(p, c, arrived) && |p.history| < TWO_TO_32
    ensures Inv(p.history, c.View())
    ensures c.totalMissedStats == 0 <==> NoDoubleDropBeforeArrival(arrived)
  {
    SingleDropsLoseNothing(p.history, arrived);
  }

  /** Measurement k is that of tick k + first. */
  ghost predicate Measured(h: seq<Sample>, first: nat, start: nat -> nat, length: nat -> nat) {
    forall k :: 0 <= k < |h| ==> h[k] == Sample(start(k + first), length(k + first))
  }

  lemma MeasuredOn(h: seq<Sample>, h': seq<Sample>, first: nat, start: nat -> nat, length: nat -> nat)
    requires Measured(h, first, start, length)
    requires h' == h || h' == h + [Sample(start(|h| + first), length(|h| + first))]
    ensures Measured(h', first, start, length)
  {
  }

  /** The state of a run of the shared-memory variant: what was measured, what arrived, and what the consumer made of it. */
  ghost predicate ShmRun(
    p: TimeLevel, c: StatsProcessing, arrived: seq<bool>, start: nat -> nat, length: nat -> nat, accepted: nat -> bool)
    reads p, p.startTimes, p.durations, c
  {
    InStep(p, c, arrived) && Follows(arrived, accepted) && Measured(p.history, 1, start, length)
  }

  method NextTick(
    p: TimeLevel, c: StatsProcessing, ghost arrived: seq<bool>, start: nat -> nat, length: nat -> nat, accepted: nat -> bool, i: nat)
    returns (ghost arrived': seq<bool>)
    requires ShmRun(p, c, arrived, start, length, accepted) && p.ticks == i
    modifies p, p.startTimes, p.durations, c
    ensures ShmRun(p, c, arrived', start, length, accepted) && p.ticks == i + 1
  {
    var ok := accepted(i / SEND_DELAY);
    TickShm(p, c, arrived, start(i), start(i) + length(i), ok);
    MeasuredOn(old(p.history), p.history, 1, start, length);
    FollowsOn(arrived, i + 1, accepted);
    arrived' := Extended(arrived, (i + 1) % SEND_DELAY == 0, ok);
  }

  method Ticks(p: TimeLevel, c: StatsProcessing, n: nat, start: nat -> nat, length: nat -> nat, accepted: nat -> bool)
    returns (ghost arrived: seq<bool>)
    requires InStep(p, c, []) && p.ticks == 0
    modifies p, p.startTimes, p.durations, c
    ensures ShmRun(p, c, arrived, start, length, accepted) && p.ticks == n
  {
    arrived := [];
    for i := 0 to n
      invariant ShmRun(p, c, arrived, start, length, accepted) && p.ticks == i
    {
      arrived := NextTick(p, c, arrived, start, length, accepted, i);
    }
  }

  /**
   The shared-memory variant for n ticks: every eighth tick adds one entry to the arrival pattern, the consumer is what
   the pattern makes of the measurements, and it misses nothing exactly if no packet arrives after two drops in a row.
   */
  method RunShm(p: TimeLevel, c: StatsProcessing, n: nat, start: nat -> nat, length: nat -> nat, accepted: nat -> bool)
    returns (ghost arrived: seq<bool>)
    requires InStep(p, c, []) && p.ticks == 0
    modifies p, p.startTimes, p.durations, c
    ensures ShmRun(p, c, arrived, start, length, accepted) && p.ticks == n && |arrived| == n / 8
    ensures n <= TWO_TO_32 ==>
      Inv(p.history, c.View()) && (c.totalMissedStats == 0 <==> NoDoubleDropBeforeArrival(arrived))
  {
    arrived := Ticks(p, c, n, start, length, accepted);
    if n <= TWO_TO_32 {
      InStepIsExact(p, c, arrived);
    }
  }

  /** The iterations among the first n whose packet was accepted, in order. */
  ghost function AcceptedOf(accepted: nat -> bool, n: nat): (ns: seq<nat>)
    ensures forall k :: 0 <= k < |ns| ==> ns[k] < n
  {
    if n == 0 then [] else AcceptedOf(accepted, n - 1) + (if accepted(n - 1) then [n - 1] else [])
  }

  lemma {:induction false} AcceptedOfListsAll(accepted: nat -> bool, n: nat)
    ensures forall k: nat :: k in AcceptedOf(accepted, n) <==> k < n && accepted(k)
    ensures forall k :: 0 < k < |AcceptedOf(accepted, n)| ==> AcceptedOf(accepted, n)[k - 1] < AcceptedOf(accepted, n)[k]
  {
    if n > 0 {
      AcceptedOfListsAll(accepted, n - 1);
    }
  }

  /** A task that sends in every run and its consumer after n runs: rebuilt from exactly the accepted packets. */
  ghost predicate Rebuilt(p: TimeLevel, c: StatsProcessing, accepted: nat -> bool, n: nat)
    reads p, p.startTimes, p.durations, c
  {
    && p.Valid() && c.Valid() && |p.history| == n
    && c.View() == Received(p.history, AcceptedOf(accepted, n), p.startTimes.Length)
  }

  method StartTask(b: nat, ghost accepted: nat -> bool) returns (p: TimeLevel, c: StatsProcessing)
    requires 0 < b
    ensures fresh(p) && fresh(p.startTimes) && fresh(p.durations) && fresh(c)
    ensures p.startTimes.Length == b && Rebuilt(p, c, accepted, 0)
  {
    p := new TimeLevel(b, 0);
    c := new StatsProcessing();
  }

  lemma AcceptedRecorded(h: seq<Sample>, h': seq<Sample>, accepted: nat -> bool, n: nat, b: nat)
    requires |h| == n && |h'| == n + 1 && h <= h'
    ensures var c := Received(h, AcceptedOf(accepted, n), b);
      Received(h', AcceptedOf(accepted, n + 1), b) == if accepted(n) then Add(c, PacketOf(h', n, b)) else c
  {
    var ns := AcceptedOf(accepted, n);
    ReceivedStays(h, h', ns, b);
    if accepted(n) {
      ReceivedStep(h', ns, n, b);
    } else {
      assert AcceptedOf(accepted, n + 1) == ns;
    }
  }

  method RunOnce(p: TimeLevel, c: StatsProcessing, start: nat, end: nat, accepted: nat -> bool, n: nat)
    requires Rebuilt(p, c, accepted, n) && start <= end
    modifies p, p.startTimes, p.durations, c
    ensures Rebuilt(p, c, accepted, n + 1) && p.history == old(p.history) + [Sample(start, end - start)]
  {
    ghost var before := p.history;
    var st := p.Iterate(start, end, accepted(n));
    AcceptedRecorded(before, p.history, accepted, n, p.startTimes.Length);
    if accepted(n) {
      c.AddStats(st);
    }
  }

  /** The state of a run of such a task. */
  ghost predicate EveryRun(p: TimeLevel, c: StatsProcessing, n: nat, start: nat -> nat, length: nat -> nat, accepted: nat -> bool)
    reads p, p.startTimes, p.durations, c
  {
    Rebuilt(p, c, accepted, n) && Measured(p.history, 0, start, length)
  }

  method NextRun(p: TimeLevel, c: StatsProcessing, n: nat, start: nat -> nat, length: nat -> nat, accepted: nat -> bool)
    requires EveryRun(p, c, n, start, length, accepted)
    modifies p, p.startTimes, p.durations, c
    ensures EveryRun(p, c, n + 1, start, length, accepted)
  {
    MeasuredOn(p.history, p.history + [Sample(start(n), length(n))], 0, start, length);
    RunOnce(p, c, start(n), start(n) + length(n), accepted, n);
  }

  lemma RebuiltIsExact(p: TimeLevel, c: StatsProcessing, accepted: nat -> bool, n: nat)
    requires n < TWO_TO_32 && Rebuilt(p, c, accepted, n)
    ensures Inv(p.history, c.View())
  {
    ReceivedKeepsInv(p.history, AcceptedOf(accepted, n), p.startTimes.Length);
  }

  method Iterations(p: TimeLevel, c: StatsProcessing, n: nat, start: nat -> nat, length: nat -> nat, accepted: nat -> bool)
    requires Rebuilt(p, c, accepted, 0)
    modifies p, p.startTimes, p.durations, c
    ensures EveryRun(p, c, n, start, length, accepted)
  {
    for i := 0 to n
      invariant EveryRun(p, c, i, start, length, accepted)
    {
      NextRun(p, c, i, start, length, accepted);
    }
  }

  /** A task that sends in every run, for n runs: the consumer is rebuilt from exactly the accepted packets. */
  method RunEveryIteration(p: TimeLevel, c: StatsProcessing, n: nat, start: nat -> nat, length: nat -> nat, accepted: nat -> bool)
    requires Rebuilt(p, c, accepted, 0)
    modifies p, p.startTimes, p.durations, c
    ensures EveryRun(p, c, n, start, length, accepted)
    ensures n < TWO_TO_32 ==> Inv(p.history, c.View())
  {
    Iterations(p, c, n, start, length, accepted);
    if n < TWO_TO_32 {
      RebuiltIsExact(p, c, accepted, n);
    }
  }
}
