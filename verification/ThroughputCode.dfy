/** The two programs of the throughput measurement in their own shape: callbacks over globals, and nested blocking loops. */
module ThroughputCode {
  import opened Bytes
  import opened Throughput

  /** The bare-metal program: its globals and the callbacks that change them. */
  class BareMetalTest {
    var phase: int
    var packetCounter: nat
    var sendPacketSize: nat
    var sendPacketCount: nat
    const recvLatencies: array<nat>
    var recvLatencyCount: nat
    var totalReceiveTime: int
    var running: bool
    var pending: Pending

    function View(): Bare
      reads this, recvLatencies
    {
      Bare(phase, packetCounter, sendPacketSize, sendPacketCount, recvLatencies[..], recvLatencyCount,
           totalReceiveTime, running, pending)
    }

    constructor (slots: nat)
      ensures fresh(recvLatencies) && recvLatencies.Length == slots
      ensures View() == Bare(0, 0, 0, 0, recvLatencies[..], 0, 0, true, NoReply)
    {
      phase, packetCounter, sendPacketSize, sendPacketCount := 0, 0, 0, 0;
      recvLatencies := new nat[slots];
      recvLatencyCount, totalReceiveTime, running, pending := 0, 0, true, NoReply;
    }

    method OnPhase0(req: Request, now: nat)
      modifies this, recvLatencies
      ensures View() == Phase0Read(old(View()), req, now)
    {
      if totalReceiveTime == 0 {
        totalReceiveTime := now;
      }
      packetCounter := packetCounter + 1;
      if recvLatencyCount < recvLatencies.Length {
        recvLatencies[recvLatencyCount] := Low(now - req.sendTime);
        recvLatencyCount := recvLatencyCount + 1;
      }
      if req.next {
        phase := 1;
        sendPacketSize := req.size;
        totalReceiveTime := now - totalReceiveTime;
      } else if req.shutdown {
        running := false;
      }
    }

    method OnPhase2(req: Request)
      modifies this
      ensures View() == Phase2Read(old(View()), req)
    {
      if req.next {
        sendPacketCount, recvLatencyCount, phase, packetCounter := 0, 0, 0, 0;
        pending := Waiting(Reply(totalReceiveTime, true, NEXT_ID, sendPacketSize));
        totalReceiveTime := 0;
      } else if req.shutdown {
        running := false;
      }
    }

    /** Phase 1 of the test loop: fill the next reply; the K-th one carries NEXT and ends the phase. */
    method PrepareReply()
      modifies this
      ensures View() == Prepare(old(View()))
    {
      var latency: int := if sendPacketCount < recvLatencies.Length then recvLatencies[sendPacketCount] else 0;
      sendPacketCount := sendPacketCount + 1;
      var last := sendPacketCount == packetCounter;
      if last {
        phase := 2;
      }
      pending := Waiting(Reply(latency, last, sendPacketCount, sendPacketSize));
    }

    /** One turn of the program on the channels of `s`: the action that its own globals select. */
    method Turn(cfg: Config, s: State, now: nat) returns (s': State)
      requires View() == s.bare && Enabled(cfg, s, BareAction(s.bare, now))
      modifies this, recvLatencies
      ensures s' == Next(cfg, s, BareAction(s.bare, now)) && View() == s'.bare
    {
      s' := Next(cfg, s, BareAction(View(), now));
      if pending.Waiting? {
        pending := NoReply;
      } else if phase == 1 {
        PrepareReply();
      } else if phase == 0 {
        OnPhase0(s.toBare[0], now);
      } else {
        OnPhase2(s.toBare[0]);
      }
    }
  }

  /** The one thing the bare-metal program would do now. */
  function BareAction(b: Bare, now: nat): Action {
    if b.pending.Waiting? then BareSend
    else if b.phase == 1 then BarePrepare
    else BareReceive(now)
  }

  /** The bare-metal program need not wait. */
  predicate BareReady(cfg: Config, s: State) {
    Enabled(cfg, s, BareAction(s.bare, 1))
  }

  /** What the bare-metal side cannot change: the Linux side's position, finished rounds, replies already sent. */
  ghost predicate BareMayLead(s: State, s': State) {
    s'.linux == s.linux && s'.done == s.done && s'.got == s.got && s.current.sent <= s'.current.sent
  }

  lemma BareActionLeads(cfg: Config, s: State, a: Action)
    requires Enabled(cfg, s, a) && !a.LinuxSend? && !a.LinuxReceive?
    ensures BareMayLead(s, Next(cfg, s, a))
  {
  }

  lemma BareActionSteps(cfg: Config, s: State, a: Action)
    requires Inv(cfg, s) && Enabled(cfg, s, a) && !a.LinuxSend? && !a.LinuxReceive?
    ensures Inv(cfg, Next(cfg, s, a)) && StepsMade(cfg, Next(cfg, s, a)) == StepsMade(cfg, s) + 1
  {
    StepKeepsInv(cfg, s, a);
    StepCountsUp(cfg, s, a);
  }

  /** A state that a run of the protocol reaches and in which the bare-metal program is `m`. */
  ghost predicate Runs(cfg: Config, clock: State -> nat, m: BareMetalTest, s: State)
    reads m, m.recvLatencies
  {
    Inv(cfg, s) && Reached(cfg, clock, s) && m.View() == s.bare
  }

  lemma LinuxStepRuns(cfg: Config, clock: State -> nat, s: State, a: Action)
    requires Inv(cfg, s) && Reached(cfg, clock, s) && Enabled(cfg, s, a) && OnTime(s, a, clock)
    ensures Inv(cfg, Next(cfg, s, a)) && Reached(cfg, clock, Next(cfg, s, a))
  {
    StepKeepsInv(cfg, s, a);
    NextIsReached(cfg, clock, s, a);
  }

  method BareStep(cfg: Config, m: BareMetalTest, s: State, clock: State -> nat) returns (s': State, moved: bool)
    requires Runs(cfg, clock, m, s)
    modifies m, m.recvLatencies
    ensures Runs(cfg, clock, m, s') && BareMayLead(s, s')
    ensures moved <==> BareReady(cfg, s)
    ensures !moved ==> s' == s
    ensures StepsMade(cfg, s') == StepsMade(cfg, s) + (if moved then 1 else 0)
  {
    var now := clock(s) + 1;
    var a := BareAction(m.View(), now);
    moved := Enabled(cfg, s, a);
    s' := s;
    if moved {
      BareActionLeads(cfg, s, a);
      BareActionSteps(cfg, s, a);
      NextIsReached(cfg, clock, s, a);
      s' := m.Turn(cfg, s, now);
    }
  }

  /** The bare-metal side makes that many steps, or as many as it can before it has to wait. */
  method LetBareRun(cfg: Config, m: BareMetalTest, s0: State, steps: nat, clock: State -> nat) returns (s: State)
    requires Runs(cfg, clock, m, s0)
    modifies m, m.recvLatencies
    ensures Runs(cfg, clock, m, s) && BareMayLead(s0, s)
    ensures StepsMade(cfg, s) == StepsMade(cfg, s0) + steps || !BareReady(cfg, s)
  {
    s := s0;
    for i := 0 to steps
      invariant Runs(cfg, clock, m, s) && BareMayLead(s0, s)
      invariant StepsMade(cfg, s) == StepsMade(cfg, s0) + i || !BareReady(cfg, s)
    {
      var moved;
      s, moved := BareStep(cfg, m, s, clock);
    }
  }

  /** The access the Linux program makes next. */
  predicate LinuxAt(l: Linux, a: Action) {
    if a.LinuxSend? then l.Sending? || l.SendingNext? else a.LinuxReceive? && (l.Receiving? || l.ReceivingSummary?)
  }

  /** While the Linux side waits, the bare-metal side can move. */
  lemma BareCanMove(cfg: Config, s: State, a: Action, now: nat)
    requires Inv(cfg, s) && !Enabled(cfg, s, a) && 0 < now
    requires LinuxAt(s.linux, a)
    ensures Enabled(cfg, s, BareAction(s.bare, now)) && StepsMade(cfg, s) < cfg.RoundSteps()
  {
    NeverStuck(cfg, s);
    RoundIsUnfinished(cfg, s);
  }

  /** Lets the bare-metal side run until the Linux side's own access `a` succeeds; `eager` of its steps may come first. */
  method WaitFor(cfg: Config, m: BareMetalTest, s0: State, a: Action, eager: nat, clock: State -> nat) returns (s: State)
    requires Runs(cfg, clock, m, s0)
    requires LinuxAt(s0.linux, a)
    modifies m, m.recvLatencies
    ensures Runs(cfg, clock, m, s) && BareMayLead(s0, s) && Enabled(cfg, s, a)
  {
    s := LetBareRun(cfg, m, s0, eager, clock);
    var moved;
    while !Enabled(cfg, s, a)
      invariant Runs(cfg, clock, m, s) && BareMayLead(s0, s)
      decreases cfg.RoundSteps() - StepsMade(cfg, s)
    {
      BareCanMove(cfg, s, a, clock(s) + 1);
      s, moved := BareStep(cfg, m, s, clock);
    }
  }

  method SendRequests(cfg: Config, m: BareMetalTest, s0: State, eager: nat -> nat, clock: State -> nat) returns (s: State)
    requires Runs(cfg, clock, m, s0) && s0.linux == Sending(0)
    modifies m, m.recvLatencies
    ensures Runs(cfg, clock, m, s) && s.linux == Receiving(0) && s.done == s0.done && s.got == 0
  {
    s := s0;
    for i := 0 to cfg.k
      invariant Runs(cfg, clock, m, s) && s.done == s0.done
      invariant s.linux == if i < cfg.k then Sending(i) else Receiving(0)
    {
      s := WaitFor(cfg, m, s, LinuxSend(0), eager(i), clock);
      LinuxStepRuns(cfg, clock, s, LinuxSend(clock(s)));
      s := Next(cfg, s, LinuxSend(clock(s)));
    }
  }

  /** A receive takes the oldest reply not taken yet. */
  lemma ReceivesNextReply(cfg: Config, s: State)
    requires Inv(cfg, s) && Enabled(cfg, s, LinuxReceive)
    ensures s.got < |s.current.sent| && s.toLinux[0] == s.current.sent[s.got]
    ensures Inv(cfg, Next(cfg, s, LinuxReceive))
  {
    StepKeepsInv(cfg, s, LinuxReceive);
  }

  /** One blocking receive. */
  method ReceiveOne(cfg: Config, m: BareMetalTest, s0: State, eager: nat, clock: State -> nat) returns (s: State, latency: int)
    requires Runs(cfg, clock, m, s0) && s0.linux.Receiving?
    modifies m, m.recvLatencies
    ensures Runs(cfg, clock, m, s) && s.done == s0.done && s.got == s0.got + 1 <= |s.current.sent|
    ensures s.linux == if s0.linux.i + 1 < cfg.k then Receiving(s0.linux.i + 1) else SendingNext
    ensures s0.current.sent <= s.current.sent && latency == s.current.sent[s0.got].latency
  {
    s := WaitFor(cfg, m, s0, LinuxReceive, eager, clock);
    ReceivesNextReply(cfg, s);
    NextIsReached(cfg, clock, s, LinuxReceive);
    latency := s.toLinux[0].latency;
    s := Next(cfg, s, LinuxReceive);
  }

  /** Position i of the table holds the latency of the i-th reply. */
  ghost predicate Tabulates(latencies: seq<int>, sent: seq<Reply>) {
    |latencies| <= |sent| && forall i :: 0 <= i < |latencies| ==> latencies[i] == sent[i].latency
  }

  lemma TableGrows(latencies: seq<int>, sent: seq<Reply>, sent': seq<Reply>, latency: int)
    requires Tabulates(latencies, sent) && sent <= sent'
    requires |latencies| < |sent'| && latency == sent'[|latencies|].latency
    ensures Tabulates(latencies + [latency], sent')
  {
  }

  lemma AllReceived(cfg: Config, s: State)
    requires Inv(cfg, s) && s.linux == SendingNext
    ensures |s.current.sent| == cfg.k
  {
  }

  /** K blocking receives fill the latency table of the round. */
  method ReceiveLatencies(cfg: Config, m: BareMetalTest, s0: State, eager: nat -> nat, clock: State -> nat)
    returns (s: State, latencies: seq<int>)
    requires Runs(cfg, clock, m, s0) && s0.linux == Receiving(0) && s0.got == 0
    modifies m, m.recvLatencies
    ensures Runs(cfg, clock, m, s) && s.linux == SendingNext && s.done == s0.done && |latencies| == cfg.k == |s.current.sent|
    ensures Tabulates(latencies, s.current.sent)
  {
    s, latencies := s0, [];
    for i := 0 to cfg.k
      invariant Runs(cfg, clock, m, s) && s.done == s0.done && |latencies| == i == s.got
      invariant s.linux == if i < cfg.k then Receiving(i) else SendingNext
      invariant Tabulates(latencies, s.current.sent)
    {
      ghost var before := s.current.sent;
      var latency;
      s, latency := ReceiveOne(cfg, m, s, eager(i), clock);
      TableGrows(latencies, before, s.current.sent, latency);
      latencies := latencies + [latency];
    }
    AllReceived(cfg, s);
  }

  /** Sends NEXT and waits for the summary, which closes the round. */
  method FinishRound(cfg: Config, m: BareMetalTest, s0: State, eager: nat -> nat, clock: State -> nat)
    returns (s: State, span: int)
    requires Runs(cfg, clock, m, s0) && s0.linux == SendingNext && |s0.current.sent| == cfg.k
    modifies m, m.recvLatencies
    ensures Runs(cfg, clock, m, s) && |s.done| == |s0.done| + 1 && s0.done <= s.done
    ensures s.linux == if |s.done| < cfg.rounds then Sending(0) else Finished
    ensures s0.current.sent <= s.done[|s0.done|].sent && RoundComplete(cfg, s.done[|s0.done|])
    ensures span == s.done[|s0.done|].sent[cfg.k].latency
  {
    s := WaitFor(cfg, m, s0, LinuxSend(0), eager(0), clock);
    LinuxStepRuns(cfg, clock, s, LinuxSend(clock(s)));
    s := Next(cfg, s, LinuxSend(clock(s)));
    s := WaitFor(cfg, m, s, LinuxReceive, eager(1), clock);
    ReceivesNextReply(cfg, s);
    NextIsReached(cfg, clock, s, LinuxReceive);
    span := s.toLinux[0].latency;
    s := Next(cfg, s, LinuxReceive);
  }

  /** A table and a span report a complete round. */
  ghost predicate Reports(cfg: Config, r: Round, table: seq<int>, span: int) {
    && RoundComplete(cfg, r)
    && |table| == cfg.k
    && (forall i :: 0 <= i < cfg.k ==> table[i] == ExpectedLatency(cfg, r, i))
    && span == ReceiveSpan(r)
  }

  lemma TableReports(cfg: Config, r: Round, sent: seq<Reply>, table: seq<int>, span: int)
    requires RoundComplete(cfg, r) && |sent| == |table| == cfg.k && sent <= r.sent
    requires Tabulates(table, sent)
    requires span == r.sent[cfg.k].latency
    ensures Reports(cfg, r, table, span)
  {
    forall i | 0 <= i < cfg.k
      ensures table[i] == ExpectedLatency(cfg, r, i)
    {
      assert r.sent[i] == sent[i];
    }
  }

  /** One round: requests, latencies, summary. */
  method DoRound(cfg: Config, m: BareMetalTest, s0: State, eager: nat -> nat, clock: State -> nat)
    returns (s: State, table: seq<int>, span: int)
    requires Runs(cfg, clock, m, s0) && s0.linux == Sending(0)
    modifies m, m.recvLatencies
    ensures Runs(cfg, clock, m, s) && |s.done| == |s0.done| + 1 && s0.done <= s.done
    ensures s.linux == if |s.done| < cfg.rounds then Sending(0) else Finished
    ensures Reports(cfg, s.done[|s0.done|], table, span)
  {
    s := SendRequests(cfg, m, s0, eager, clock);
    s, table := ReceiveLatencies(cfg, m, s, eager, clock);
    ghost var sent := s.current.sent;
    s, span := FinishRound(cfg, m, s, eager, clock);
    TableReports(cfg, s.done[|s0.done|], sent, table, span);
  }

  /**
   The whole measurement against a freshly started bare-metal program: it ends in a state that a run of the protocol
   reaches, and every round's table holds the latencies of that round's requests, in order, and its span.
   */
  method DoTest(cfg: Config, eager: nat -> nat -> nat, clock: State -> nat)
    returns (m: BareMetalTest, s: State, tables: seq<seq<int>>, spans: seq<int>)
    requires cfg.Valid()
    ensures fresh(m) && Runs(cfg, clock, m, s)
    ensures s.linux.Finished? && |s.done| == |tables| == |spans| == cfg.rounds
    ensures forall r :: 0 <= r < cfg.rounds ==> Reports(cfg, s.done[r], tables[r], spans[r])
  {
    m := new BareMetalTest(cfg.slots);
    s := State(if cfg.rounds == 0 then Finished else Sending(0), m.View(), [], [], EMPTY_ROUND, 0, 0, []);
    InitIsReached(cfg, clock, s);
    tables, spans := [], [];
    for r := 0 to cfg.rounds
      invariant Runs(cfg, clock, m, s) && |s.done| == |tables| == |spans| == r
      invariant s.linux == if r < cfg.rounds then Sending(0) else Finished
      invariant forall q :: 0 <= q < r ==> Reports(cfg, s.done[q], tables[q], spans[q])
      invariant fresh(m) && fresh(m.recvLatencies)
    {
      var table, span;
      s, table, span := DoRound(cfg, m, s, eager(r), clock);
      tables, spans := tables + [table], spans + [span];
    }
  }
}
