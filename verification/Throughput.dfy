/**
 The three-phase throughput measurement: the Linux program sends K requests, the
 bare-metal program answers with K latencies, and a NEXT request is answered by
 one summary.  The two run over bounded lossless channels; one channel access is
 one step, and a full or empty channel simply makes a side wait.
 */
module Throughput {
  import opened Bytes
  import ModArith

  const NEXT_ID := 0xFFFF_FFFF

  /** Size of a bare request, which is what the closing one is sent with: a 64-bit time, flags and id. */
  const REQUEST_SIZE := 16

  datatype Request = Request(sendTime: nat, next: bool, shutdown: bool, id: nat, size: nat)

  datatype Reply = Reply(latency: int, next: bool, id: nat, size: nat)

  datatype Pending = NoReply | Waiting(reply: Reply)

  /** Packets per round and their size, latency slots, rounds, and the capacities of the two channels. */
  datatype Config = Config(k: nat, size: nat, slots: nat, rounds: nat, toBare: nat, toLinux: nat) {
    ghost predicate Valid() {
      0 < k && 0 < toBare && 0 < toLinux
    }

    /** Channel accesses and preparations in one round. */
    ghost function RoundSteps(): nat {
      5 * k + 4
    }
  }

  /** The globals of the bare-metal program; `pending` is a reply whose send is being retried. */
  datatype Bare = Bare(
    phase: int,
    packetCounter: nat,
    sendPacketSize: nat,
    sendPacketCount: nat,
    recvLatencies: seq<nat>,
    recvLatencyCount: nat,
    totalReceiveTime: int,
    running: bool,
    pending: Pending)

  datatype Linux = Sending(i: nat) | Receiving(i: nat) | SendingNext | ReceivingSummary | Finished

  /** Everything one round put on the channels, and when the requests were taken off. */
  datatype Round = Round(asked: seq<Request>, recvTimes: seq<nat>, sent: seq<Reply>)

  datatype State = State(
    linux: Linux,
    bare: Bare,
    toBare: seq<Request>,
    toLinux: seq<Reply>,
    current: Round,
    taken: nat,
    got: nat,
    done: seq<Round>)

  datatype Action = LinuxSend(now: nat) | LinuxReceive | BareReceive(now: nat) | BarePrepare | BareSend

  // ------------------------------------------------------- the bare-metal side

  function Phase0Read(b: Bare, req: Request, now: nat): Bare {
    var total := if b.totalReceiveTime == 0 then now else b.totalReceiveTime;
    var stored := b.recvLatencyCount < |b.recvLatencies|;
    b.(packetCounter := b.packetCounter + 1,
       recvLatencies := if stored then b.recvLatencies[b.recvLatencyCount := Low(now - req.sendTime)] else b.recvLatencies,
       recvLatencyCount := if stored then b.recvLatencyCount + 1 else b.recvLatencyCount,
       phase := if req.next then 1 else b.phase,
       sendPacketSize := if req.next then req.size else b.sendPacketSize,
       running := b.running && (req.next || !req.shutdown),
       totalReceiveTime := if req.next then now - total else total)
  }

  function Phase2Read(b: Bare, req: Request): Bare {
    if req.next
    then b.(sendPacketCount := 0, recvLatencyCount := 0, phase := 0, packetCounter := 0, totalReceiveTime := 0,
            pending := Waiting(Reply(b.totalReceiveTime, true, NEXT_ID, b.sendPacketSize)))
    else b.(running := b.running && !req.shutdown)
  }

  function Prepare(b: Bare): Bare {
    var latency := if b.sendPacketCount < |b.recvLatencies| then b.recvLatencies[b.sendPacketCount] else 0;
    var count := b.sendPacketCount + 1;
    var last := count == b.packetCounter;
    b.(sendPacketCount := count, phase := if last then 2 else b.phase,
       pending := Waiting(Reply(latency, last, count, b.sendPacketSize)))
  }

  // ------------------------------------------------------------------- steps

  predicate Enabled(cfg: Config, s: State, a: Action) {
    match a
    case LinuxSend(now) => (s.linux.Sending? || s.linux.SendingNext?) && |s.toBare| < cfg.toBare
    case LinuxReceive => (s.linux.Receiving? || s.linux.ReceivingSummary?) && s.toLinux != []
    case BareReceive(now) =>
      s.bare.running && s.bare.pending.NoReply? && (s.bare.phase == 0 || s.bare.phase == 2) && s.toBare != [] && 0 < now
    case BarePrepare => s.bare.running && s.bare.pending.NoReply? && s.bare.phase == 1
    case BareSend => s.bare.pending.Waiting? && |s.toLinux| < cfg.toLinux
  }

  const EMPTY_ROUND := Round([], [], [])

  function Asked(s: State, req: Request, linux: Linux): State {
    s.(linux := linux, toBare := s.toBare + [req], current := s.current.(asked := s.current.asked + [req]))
  }

  function Next(cfg: Config, s: State, a: Action): State
    requires Enabled(cfg, s, a)
  {
    match a
    case LinuxSend(now) =>
      if s.linux.Sending?
      then Asked(s, Request(now, s.linux.i + 1 == cfg.k, false, s.linux.i, cfg.size),
                 if s.linux.i + 1 < cfg.k then Sending(s.linux.i + 1) else Receiving(0))
      else Asked(s, Request(now, true, false, NEXT_ID, REQUEST_SIZE), ReceivingSummary)
    case LinuxReceive =>
      if s.linux.Receiving?
      then s.(toLinux := s.toLinux[1..], got := s.got + 1,
              linux := if s.linux.i + 1 < cfg.k then Receiving(s.linux.i + 1) else SendingNext)
      else s.(toLinux := s.toLinux[1..], got := 0, taken := 0, current := EMPTY_ROUND, done := s.done + [s.current],
              linux := if |s.done| + 1 < cfg.rounds then Sending(0) else Finished)
    case BareReceive(now) =>
      var req := s.toBare[0];
      if s.bare.phase == 0
      then s.(toBare := s.toBare[1..], taken := s.taken + 1, bare := Phase0Read(s.bare, req, now),
              current := s.current.(recvTimes := s.current.recvTimes + [now]))
      else s.(toBare := s.toBare[1..], taken := s.taken + 1, bare := Phase2Read(s.bare, req))
    case BarePrepare => s.(bare := Prepare(s.bare))
    case BareSend =>
      s.(toLinux := s.toLinux + [s.bare.pending.reply], bare := s.bare.(pending := NoReply),
         current := s.current.(sent := s.current.sent + [s.bare.pending.reply]))
  }

  ghost predicate IsInit(cfg: Config, s: State) {
    && |s.bare.recvLatencies| == cfg.slots
    && s == State(if cfg.rounds == 0 then Finished else Sending(0),
                  Bare(0, 0, 0, 0, s.bare.recvLatencies, 0, 0, true, NoReply), [], [], EMPTY_ROUND, 0, 0, [])
  }

  // ------------------------------------------------------ what a round must be

  ghost function ExpectedLatency(cfg: Config, r: Round, i: nat): nat
    requires i < |r.asked| && i < |r.recvTimes|
  {
    if i < cfg.slots then Low(r.recvTimes[i] - r.asked[i].sendTime) else 0
  }

  ghost function ExpectedReply(cfg: Config, r: Round, i: nat): Reply
    requires i < |r.asked| && i < |r.recvTimes|
  {
    Reply(ExpectedLatency(cfg, r, i), i + 1 == cfg.k, i + 1, cfg.size)
  }

  ghost function ReceiveSpan(r: Round): int
    requires 0 < |r.recvTimes|
  {
    var first: int, last: int := r.recvTimes[0], r.recvTimes[|r.recvTimes| - 1];
    last - first
  }

  ghost function Summary(cfg: Config, r: Round): Reply
    requires 0 < |r.recvTimes|
  {
    Reply(ReceiveSpan(r), true, 0xFFFF_FFFF, cfg.size)
  }

  /** The i-th request of a round: K numbered ones of the tested size, then the closing one. */
  ghost predicate IsRequest(cfg: Config, req: Request, i: nat) {
    if i < cfg.k then req == Request(req.sendTime, i + 1 == cfg.k, false, i, cfg.size)
    else req == Request(req.sendTime, true, false, 0xFFFF_FFFF, 16)
  }

  /** A finished round: K numbered requests, K replies with their latencies, one summary. */
  ghost predicate RoundComplete(cfg: Config, r: Round) {
    && 0 < cfg.k == |r.recvTimes|
    && |r.asked| == |r.sent| == cfg.k + 1
    && (forall i :: 0 <= i <= cfg.k ==> IsRequest(cfg, r.asked[i], i))
    && (forall i :: 0 <= i < cfg.k ==> r.sent[i] == ExpectedReply(cfg, r, i))
    && r.sent[cfg.k] == Summary(cfg, r)
  }

  // ---------------------------------------------------------------- invariant

  ghost predicate ChannelsAgree(s: State) {
    && s.taken <= |s.current.asked| && s.toBare == s.current.asked[s.taken..]
    && s.got <= |s.current.sent| && s.toLinux == s.current.sent[s.got..]
  }

  ghost predicate LinuxAgrees(cfg: Config, s: State) {
    && (forall i :: 0 <= i < |s.current.asked| ==> IsRequest(cfg, s.current.asked[i], i))
    && match s.linux
       case Sending(i) => i == |s.current.asked| < cfg.k && s.got == 0 && |s.done| < cfg.rounds
       case Receiving(i) => |s.current.asked| == cfg.k && i == s.got < cfg.k && |s.done| < cfg.rounds
       case SendingNext => |s.current.asked| == cfg.k && s.got == cfg.k && |s.done| < cfg.rounds
       case ReceivingSummary => |s.current.asked| == cfg.k + 1 && s.got == cfg.k && |s.done| < cfg.rounds
       case Finished => s.current == EMPTY_ROUND && s.got == 0 && |s.done| == cfg.rounds
  }

  /** Collecting requests: the counters and the latency table describe those taken so far. */
  ghost predicate Collecting(cfg: Config, s: State)
    requires |s.current.recvTimes| == s.taken
  {
    var b := s.bare;
    && b.phase == 0 && b.pending.NoReply?
    && b.packetCounter == s.taken && b.sendPacketCount == 0
    && s.current.sent == []
    && b.totalReceiveTime == (if s.taken == 0 then 0 else s.current.recvTimes[0])
  }

  /** Replying: prepared replies are numbered from one, and the K-th switches to phase 2. */
  ghost predicate Replying(cfg: Config, s: State)
    requires s.taken <= |s.current.asked| && |s.current.recvTimes| == cfg.k == s.taken && 0 < cfg.k
  {
    var b := s.bare;
    && |s.current.sent| <= cfg.k
    && b.packetCounter == cfg.k && b.sendPacketSize == cfg.size
    && b.totalReceiveTime == ReceiveSpan(s.current)
    && b.sendPacketCount == |s.current.sent| + (if b.pending.Waiting? then 1 else 0) <= cfg.k
    && b.phase == (if b.sendPacketCount == cfg.k then 2 else 1)
    && (b.pending.Waiting? ==> b.pending.reply == ExpectedReply(cfg, s.current, |s.current.sent|))
  }

  /** The summary is on its way or has been sent; the counters are ready for the next round. */
  ghost predicate Summarised(cfg: Config, s: State)
    requires |s.current.recvTimes| == cfg.k && 0 < cfg.k
  {
    var b := s.bare;
    && b.phase == 0 && b.packetCounter == 0 && b.sendPacketCount == 0 && b.totalReceiveTime == 0
    && (b.pending.Waiting? ==>
          |s.current.sent| == cfg.k && b.pending.reply == Summary(cfg, s.current))
    && (b.pending.NoReply? ==>
          |s.current.sent| == cfg.k + 1 && s.current.sent[cfg.k] == Summary(cfg, s.current))
  }

  ghost predicate LatenciesAgree(cfg: Config, s: State)
    requires s.taken <= |s.current.asked|
  {
    var b := s.bare;
    && |b.recvLatencies| == cfg.slots
    && |s.current.recvTimes| == Min(s.taken, cfg.k)
    && (forall i :: 0 <= i < |s.current.recvTimes| ==> 0 < s.current.recvTimes[i])
    && b.recvLatencyCount == (if s.taken <= cfg.k then Min(s.taken, cfg.slots) else 0)
    && (s.taken <= cfg.k ==> forall i :: 0 <= i < b.recvLatencyCount ==>
          b.recvLatencies[i] == Low(s.current.recvTimes[i] - s.current.asked[i].sendTime))
  }

  ghost predicate SentAgrees(cfg: Config, s: State) {
    forall i :: 0 <= i < |s.current.sent| && i < cfg.k ==>
      && i < |s.current.asked| && i < |s.current.recvTimes|
      && s.current.sent[i] == ExpectedReply(cfg, s.current, i)
  }

  ghost predicate BareAgrees(cfg: Config, s: State)
    requires s.taken <= |s.current.asked| && 0 < cfg.k
  {
    && s.bare.running
    && LatenciesAgree(cfg, s)
    && SentAgrees(cfg, s)
    && s.taken <= cfg.k + 1
    && (s.taken < cfg.k ==> Collecting(cfg, s))
    && (s.taken == cfg.k ==> Replying(cfg, s))
    && (s.taken == cfg.k + 1 ==> Summarised(cfg, s))
  }

  ghost predicate Inv(cfg: Config, s: State) {
    && cfg.Valid()
    && ChannelsAgree(s)
    && LinuxAgrees(cfg, s)
    && BareAgrees(cfg, s)
    && forall i :: 0 <= i < |s.done| ==> RoundComplete(cfg, s.done[i])
  }

  // ------------------------------------------------------------ step by step

  /** A new request changes nothing the bare-metal side has computed. */
  lemma AskedKeepsBare(cfg: Config, s: State, req: Request, linux: Linux)
    requires s.taken <= |s.current.asked| && 0 < cfg.k && BareAgrees(cfg, s)
    ensures BareAgrees(cfg, Asked(s, req, linux))
  {
    var s' := Asked(s, req, linux);
    assert forall i :: 0 <= i < |s.current.asked| ==> s'.current.asked[i] == s.current.asked[i];
    assert LatenciesAgree(cfg, s');
    forall i | 0 <= i < |s.current.sent| && i < cfg.k
      ensures s'.current.sent[i] == ExpectedReply(cfg, s'.current, i)
    {
      assert s.current.sent[i] == ExpectedReply(cfg, s.current, i);
    }
  }

  lemma AskedKeepsLinux(cfg: Config, s: State, a: Action)
    requires 0 < cfg.k && LinuxAgrees(cfg, s) && a.LinuxSend? && Enabled(cfg, s, a)
    ensures LinuxAgrees(cfg, Next(cfg, s, a))
  {
    var s' := Next(cfg, s, a);
    assert forall i :: 0 <= i < |s.current.asked| ==> s'.current.asked[i] == s.current.asked[i];
  }

  lemma LinuxSendKeepsInv(cfg: Config, s: State, a: Action)
    requires Inv(cfg, s) && a.LinuxSend? && Enabled(cfg, s, a)
    ensures Inv(cfg, Next(cfg, s, a))
  {
    var s' := Next(cfg, s, a);
    var n := |s.current.asked|;
    AskedKeepsBare(cfg, s, s'.current.asked[n], s'.linux);
    AskedKeepsLinux(cfg, s, a);
    assert ChannelsAgree(s');
  }

  lemma LinuxReceiveKeepsInv(cfg: Config, s: State, a: Action)
    requires Inv(cfg, s) && a.LinuxReceive? && Enabled(cfg, s, a)
    ensures Inv(cfg, Next(cfg, s, a))
  {
    var s' := Next(cfg, s, a);
    if s.linux.ReceivingSummary? {
      assert RoundComplete(cfg, s.current);
    }
  }

  lemma RequestTakenKeepsLatencies(cfg: Config, s: State, now: nat)
    requires s.taken < cfg.k && s.taken < |s.current.asked| && LatenciesAgree(cfg, s) && 0 < now
    ensures var s' := s.(taken := s.taken + 1, bare := Phase0Read(s.bare, s.current.asked[s.taken], now),
                         current := s.current.(recvTimes := s.current.recvTimes + [now]));
      LatenciesAgree(cfg, s')
  {
  }

  lemma RequestTakenKeepsChannels(cfg: Config, s: State, a: Action)
    requires ChannelsAgree(s) && LinuxAgrees(cfg, s) && a.BareReceive? && Enabled(cfg, s, a)
    ensures s.taken < |s.current.asked| && s.toBare[0] == s.current.asked[s.taken]
    ensures ChannelsAgree(Next(cfg, s, a)) && LinuxAgrees(cfg, Next(cfg, s, a))
  {
    assert s.toBare[1..] == s.current.asked[s.taken + 1..];
  }

  /** In phase 0 with a request waiting, requests are being collected. */
  lemma IsCollecting(cfg: Config, s: State)
    requires Inv(cfg, s) && s.bare.phase == 0 && s.taken < |s.current.asked| && s.bare.pending.NoReply?
    ensures s.taken < cfg.k && |s.current.recvTimes| == s.taken && Collecting(cfg, s)
    ensures forall i :: 0 <= i < s.taken ==> 0 < s.current.recvTimes[i]
    ensures IsRequest(cfg, s.current.asked[s.taken], s.taken)
  {
  }

  /** The next request is collected, and the K-th one ends the phase. */
  lemma CollectedOneMore(cfg: Config, s: State, req: Request, now: nat, s': State)
    requires s.taken < cfg.k && |s.current.recvTimes| == s.taken < |s.current.asked| && Collecting(cfg, s)
    requires forall i :: 0 <= i < s.taken ==> 0 < s.current.recvTimes[i]
    requires IsRequest(cfg, req, s.taken) && 0 < now
    requires s' == s.(toBare := s'.toBare, taken := s.taken + 1, bare := Phase0Read(s.bare, req, now),
                      current := s.current.(recvTimes := s.current.recvTimes + [now]))
    ensures |s'.current.recvTimes| == s'.taken
    ensures if s'.taken < cfg.k then Collecting(cfg, s') else Replying(cfg, s')
  {
  }

  lemma RequestTakenKeepsPhase(cfg: Config, s: State, a: Action)
    requires Inv(cfg, s) && a.BareReceive? && Enabled(cfg, s, a) && s.bare.phase == 0
    requires s.taken < |s.current.asked| && s.toBare[0] == s.current.asked[s.taken]
    ensures s.taken < cfg.k && s.current.sent == []
    ensures var s' := Next(cfg, s, a);
      && s'.bare.running && |s'.current.recvTimes| == s'.taken == s.taken + 1
      && if s'.taken < cfg.k then Collecting(cfg, s') else Replying(cfg, s')
  {
    IsCollecting(cfg, s);
    CollectedOneMore(cfg, s, s.toBare[0], a.now, Next(cfg, s, a));
  }

  lemma RequestTakenKeepsInv(cfg: Config, s: State, a: Action)
    requires Inv(cfg, s) && a.BareReceive? && Enabled(cfg, s, a) && s.bare.phase == 0
    ensures Inv(cfg, Next(cfg, s, a))
  {
    RequestTakenKeepsChannels(cfg, s, a);
    RequestTakenKeepsPhase(cfg, s, a);
    RequestTakenKeepsLatencies(cfg, s, a.now);
    var s' := Next(cfg, s, a);
    assert LatenciesAgree(cfg, s');
    assert SentAgrees(cfg, s');
    assert BareAgrees(cfg, s');
  }

  lemma NextTakenKeepsInv(cfg: Config, s: State, a: Action)
    requires Inv(cfg, s) && a.BareReceive? && Enabled(cfg, s, a) && s.bare.phase == 2
    ensures Inv(cfg, Next(cfg, s, a))
  {
    var s' := Next(cfg, s, a);
    assert s.toBare[0] == s.current.asked[s.taken];
    assert ChannelsAgree(s');
    assert Summarised(cfg, s');
  }

  lemma PrepareKeepsInv(cfg: Config, s: State)
    requires Inv(cfg, s) && Enabled(cfg, s, BarePrepare)
    ensures Inv(cfg, Next(cfg, s, BarePrepare))
  {
    var s' := Next(cfg, s, BarePrepare);
    assert s.taken == cfg.k && Replying(cfg, s');
  }

  /** Sending the waiting reply extends the replies as expected. */
  lemma SentIsExpected(cfg: Config, s: State)
    requires Inv(cfg, s) && s.bare.pending.Waiting?
    ensures SentAgrees(cfg, s.(current := s.current.(sent := s.current.sent + [s.bare.pending.reply])))
  {
    var n := |s.current.sent|;
    var r := s.current.(sent := s.current.sent + [s.bare.pending.reply]);
    forall i | 0 <= i < |r.sent| && i < cfg.k
      ensures i < |r.asked| && i < |r.recvTimes| && r.sent[i] == ExpectedReply(cfg, r, i)
    {
      if i < n {
        assert s.current.sent[i] == ExpectedReply(cfg, s.current, i);
      }
    }
  }

  lemma BareSendKeepsChannels(cfg: Config, s: State)
    requires ChannelsAgree(s) && LinuxAgrees(cfg, s) && Enabled(cfg, s, BareSend)
    ensures ChannelsAgree(Next(cfg, s, BareSend))
    ensures !s.linux.Finished? ==> LinuxAgrees(cfg, Next(cfg, s, BareSend))
  {
  }

  lemma BareSendKeepsPhase(cfg: Config, s: State)
    requires Inv(cfg, s) && Enabled(cfg, s, BareSend)
    ensures var s' := Next(cfg, s, BareSend);
      if s.taken == cfg.k then |s'.current.recvTimes| == cfg.k && Replying(cfg, s')
      else s.taken == cfg.k + 1 && |s'.current.recvTimes| == cfg.k && Summarised(cfg, s')
    ensures !s.linux.Finished?
  {
  }

  lemma BareSendKeepsBare(cfg: Config, s: State)
    requires Inv(cfg, s) && Enabled(cfg, s, BareSend)
    ensures BareAgrees(cfg, Next(cfg, s, BareSend))
  {
    BareSendKeepsPhase(cfg, s);
    SentIsExpected(cfg, s);
    var s' := Next(cfg, s, BareSend);
    assert SentAgrees(cfg, s');
    assert LatenciesAgree(cfg, s');
  }

  lemma BareSendKeepsInv(cfg: Config, s: State)
    requires Inv(cfg, s) && Enabled(cfg, s, BareSend)
    ensures Inv(cfg, Next(cfg, s, BareSend))
  {
    BareSendKeepsPhase(cfg, s);
    BareSendKeepsChannels(cfg, s);
    BareSendKeepsBare(cfg, s);
  }

  lemma StepKeepsInv(cfg: Config, s: State, a: Action)
    requires Inv(cfg, s) && Enabled(cfg, s, a)
    ensures Inv(cfg, Next(cfg, s, a))
  {
    match a
    case LinuxSend(now) => LinuxSendKeepsInv(cfg, s, a);
    case LinuxReceive => LinuxReceiveKeepsInv(cfg, s, a);
    case BareReceive(now) =>
      if s.bare.phase == 0 {
        RequestTakenKeepsInv(cfg, s, a);
      } else {
        NextTakenKeepsInv(cfg, s, a);
      }
    case BarePrepare => PrepareKeepsInv(cfg, s);
    case BareSend => BareSendKeepsInv(cfg, s);
  }

  // ---------------------------------------------------------------- progress

  /** How many replies of the current round have been prepared. */
  ghost function Prepared(cfg: Config, s: State): nat {
    if s.taken > cfg.k then cfg.k else s.bare.sendPacketCount
  }

  /** Steps the current round has made. */
  ghost function StepsMade(cfg: Config, s: State): nat {
    |s.current.asked| + s.taken + Prepared(cfg, s) + |s.current.sent| + s.got
  }

  /** Steps left until the last round ends. */
  ghost function Remaining(cfg: Config, s: State): int {
    (cfg.rounds - |s.done|) * cfg.RoundSteps() - StepsMade(cfg, s)
  }

  /** Within a round every step adds one to the steps made. */
  lemma StepCountsUp(cfg: Config, s: State, a: Action)
    requires Inv(cfg, s) && Enabled(cfg, s, a) && !(a.LinuxReceive? && s.linux.ReceivingSummary?)
    ensures StepsMade(cfg, Next(cfg, s, a)) == StepsMade(cfg, s) + 1
    ensures Next(cfg, s, a).done == s.done
  {
  }

  /** Every step is one of exactly R * (5K + 4) steps. */
  lemma StepCountsDown(cfg: Config, s: State, a: Action)
    requires Inv(cfg, s) && Enabled(cfg, s, a)
    ensures Remaining(cfg, Next(cfg, s, a)) == Remaining(cfg, s) - 1
  {
    var s' := Next(cfg, s, a);
    if a.LinuxReceive? && s.linux.ReceivingSummary? {
      var left, p := cfg.rounds - |s.done|, cfg.RoundSteps();
      assert StepsMade(cfg, s) == p - 1 && StepsMade(cfg, s') == 0;
      assert cfg.rounds - |s'.done| == left - 1;
      assert (left - 1) * p == left * p - p;
    } else {
      StepCountsUp(cfg, s, a);
    }
  }

  lemma RoundIsUnfinished(cfg: Config, s: State)
    requires Inv(cfg, s)
    ensures s.linux.Finished? ==> StepsMade(cfg, s) == 0 && cfg.rounds == |s.done|
    ensures !s.linux.Finished? ==> StepsMade(cfg, s) < cfg.RoundSteps() && |s.done| < cfg.rounds
  {
  }

  /** No steps are left exactly when the Linux program has finished. */
  lemma RemainingIsZeroWhenFinished(cfg: Config, s: State)
    requires Inv(cfg, s)
    ensures Remaining(cfg, s) >= 0
    ensures Remaining(cfg, s) == 0 <==> s.linux.Finished?
  {
    RoundIsUnfinished(cfg, s);
    Countdown(cfg.rounds - |s.done|, cfg.RoundSteps(), StepsMade(cfg, s), s.linux.Finished?);
  }

  lemma Countdown(left: nat, p: nat, made: nat, finished: bool)
    requires if finished then left == 0 && made == 0 else left > 0 && made < p
    ensures left * p - made >= 0
    ensures left * p - made == 0 <==> finished
  {
    ModArith.ProductSign(p, left);
  }

  /** Until the last round ends, one of the two programs can move. */
  lemma NeverStuck(cfg: Config, s: State)
    requires Inv(cfg, s) && !s.linux.Finished?
    ensures Enabled(cfg, s, LinuxSend(1)) || Enabled(cfg, s, LinuxReceive) || Enabled(cfg, s, BareReceive(1))
         || Enabled(cfg, s, BarePrepare) || Enabled(cfg, s, BareSend)
  {
  }

  /** The phases agree, and a channel is empty whenever its direction is handed over. */
  lemma PhasesAgree(cfg: Config, s: State)
    requires Inv(cfg, s)
    ensures s.linux.Sending? ==> s.bare.phase == 0 && s.toLinux == []
    ensures s.bare.phase == 1 ==> s.linux.Receiving? && s.toBare == []
    ensures s.linux.SendingNext? ==> s.bare.phase == 2 && s.toBare == [] && s.toLinux == []
    ensures s.linux == Sending(0) || s.linux.Finished? ==> s.toBare == [] && s.toLinux == [] && s.bare.pending.NoReply?
  {
  }

  // ---------------------------------------------------------------- whole runs

  ghost predicate IsRun(cfg: Config, tr: seq<State>, acts: seq<Action>) {
    && |tr| == |acts| + 1
    && forall i :: 0 <= i < |acts| ==> Enabled(cfg, tr[i], acts[i]) && tr[i + 1] == Next(cfg, tr[i], acts[i])
  }

  /** Requests are sent, and taken, at the times a clock shows in the state before. */
  ghost predicate Clocked(tr: seq<State>, acts: seq<Action>, clock: State -> nat) {
    |tr| == |acts| + 1 && forall i :: 0 <= i < |acts| ==> OnTime(tr[i], acts[i], clock)
  }

  ghost predicate OnTime(s: State, a: Action, clock: State -> nat) {
    && (a.LinuxSend? ==> a.now == clock(s))
    && (a.BareReceive? ==> a.now == clock(s) + 1)
  }

  /** Some run from the start, timed by the clock, ends here. */
  ghost predicate Reached(cfg: Config, clock: State -> nat, s: State) {
    exists tr: seq<State>, acts: seq<Action> ::
      IsRun(cfg, tr, acts) && Clocked(tr, acts, clock) && IsInit(cfg, tr[0]) && tr[|acts|] == s
  }

  lemma InitIsReached(cfg: Config, clock: State -> nat, s: State)
    requires IsInit(cfg, s)
    ensures Reached(cfg, clock, s)
  {
    assert IsRun(cfg, [s], []) && Clocked([s], [], clock) && [s][0] == s;
  }

  lemma NextIsReached(cfg: Config, clock: State -> nat, s: State, a: Action)
    requires Reached(cfg, clock, s) && Enabled(cfg, s, a) && OnTime(s, a, clock)
    ensures Reached(cfg, clock, Next(cfg, s, a))
  {
    var tr: seq<State>, acts: seq<Action> :|
      IsRun(cfg, tr, acts) && Clocked(tr, acts, clock) && IsInit(cfg, tr[0]) && tr[|acts|] == s;
    RunExtended(cfg, clock, tr, acts, a);
    var tr', acts' := tr + [Next(cfg, s, a)], acts + [a];
    assert tr'[0] == tr[0] && tr'[|acts'|] == Next(cfg, s, a);
  }

  lemma RunExtended(cfg: Config, clock: State -> nat, tr: seq<State>, acts: seq<Action>, a: Action)
    requires IsRun(cfg, tr, acts) && Clocked(tr, acts, clock)
    requires Enabled(cfg, tr[|acts|], a) && OnTime(tr[|acts|], a, clock)
    ensures IsRun(cfg, tr + [Next(cfg, tr[|acts|], a)], acts + [a])
    ensures Clocked(tr + [Next(cfg, tr[|acts|], a)], acts + [a], clock)
  {
    var tr', acts' := tr + [Next(cfg, tr[|acts|], a)], acts + [a];
    forall i | 0 <= i < |acts'|
      ensures Enabled(cfg, tr'[i], acts'[i]) && tr'[i + 1] == Next(cfg, tr'[i], acts'[i]) && OnTime(tr'[i], acts'[i], clock)
    {
      if i < |acts| {
        assert tr'[i] == tr[i] && tr'[i + 1] == tr[i + 1] && acts'[i] == acts[i];
      }
    }
  }

  lemma {:induction false} RunKeepsInv(cfg: Config, tr: seq<State>, acts: seq<Action>, k: nat)
    requires cfg.Valid() && IsRun(cfg, tr, acts) && IsInit(cfg, tr[0]) && k < |tr|
    ensures Inv(cfg, tr[k]) && Remaining(cfg, tr[k]) == cfg.rounds * cfg.RoundSteps() - k
  {
    if k == 0 {
    } else {
      RunKeepsInv(cfg, tr, acts, k - 1);
      StepKeepsInv(cfg, tr[k - 1], acts[k - 1]);
      StepCountsDown(cfg, tr[k - 1], acts[k - 1]);
    }
  }

  /** Every run has at most R * (5K + 4) steps, can always be continued to that length, and then every round is complete. */
  lemma EveryRunCompletes(cfg: Config, tr: seq<State>, acts: seq<Action>)
    requires cfg.Valid() && IsRun(cfg, tr, acts) && IsInit(cfg, tr[0])
    ensures |acts| <= cfg.rounds * cfg.RoundSteps()
    ensures |acts| == cfg.rounds * cfg.RoundSteps() <==> tr[|acts|].linux.Finished?
    ensures |acts| < cfg.rounds * cfg.RoundSteps() ==> exists a :: Enabled(cfg, tr[|acts|], a)
    ensures forall i :: 0 <= i < |tr[|acts|].done| ==> RoundComplete(cfg, tr[|acts|].done[i])
    ensures tr[|acts|].linux.Finished? ==> |tr[|acts|].done| == cfg.rounds
  {
    RunKeepsInv(cfg, tr, acts, |acts|);
    RemainingIsZeroWhenFinished(cfg, tr[|acts|]);
    if !tr[|acts|].linux.Finished? {
      NeverStuck(cfg, tr[|acts|]);
    }
  }

  /** Neither channel ever holds more than it has room for. */
  lemma {:induction false} ChannelsAreBounded(cfg: Config, tr: seq<State>, acts: seq<Action>, k: nat)
    requires IsRun(cfg, tr, acts) && IsInit(cfg, tr[0]) && k < |tr|
    ensures |tr[k].toBare| <= cfg.toBare && |tr[k].toLinux| <= cfg.toLinux
  {
    if k > 0 {
      ChannelsAreBounded(cfg, tr, acts, k - 1);
    }
  }

  // ------------------------------------- reported latencies are action times

  /** The times of the LinuxSend actions, in order. */
  ghost function SendTimes(acts: seq<Action>): seq<int> {
    if acts == [] then []
    else
      var a := acts[|acts| - 1];
      SendTimes(acts[..|acts| - 1]) + if a.LinuxSend? then [a.now] else []
  }

  /** The times of the BareReceive actions made in phase 0, in order. */
  ghost function TakeTimes(tr: seq<State>, acts: seq<Action>, k: nat): seq<int>
    requires k <= |acts| && |tr| == |acts| + 1
  {
    if k == 0 then []
    else
      var a := acts[k - 1];
      TakeTimes(tr, acts, k - 1) + if a.BareReceive? && tr[k - 1].bare.phase == 0 then [a.now] else []
  }

  ghost function Times(reqs: seq<Request>): (ts: seq<int>)
    ensures |ts| == |reqs| && forall i :: 0 <= i < |reqs| ==> ts[i] == reqs[i].sendTime
  {
    seq(|reqs|, i requires 0 <= i < |reqs| => reqs[i].sendTime)
  }

  /** The send times of all requests of the finished rounds, and their receive times. */
  ghost function AllSent(done: seq<Round>): seq<int> {
    if done == [] then [] else AllSent(done[..|done| - 1]) + Times(done[|done| - 1].asked)
  }

  ghost function AllTaken(done: seq<Round>): seq<int> {
    if done == [] then [] else AllTaken(done[..|done| - 1]) + done[|done| - 1].recvTimes
  }

  lemma StepTimes(cfg: Config, s: State, a: Action)
    requires Enabled(cfg, s, a)
    ensures var s' := Next(cfg, s, a);
      && AllSent(s'.done) + Times(s'.current.asked)
         == AllSent(s.done) + Times(s.current.asked) + (if a.LinuxSend? then [a.now] else [])
      && AllTaken(s'.done) + s'.current.recvTimes
         == AllTaken(s.done) + s.current.recvTimes + (if a.BareReceive? && s.bare.phase == 0 then [a.now] else [])
  {
    var s' := Next(cfg, s, a);
    if a.LinuxSend? {
      assert Times(s'.current.asked) == Times(s.current.asked) + [a.now];
    }
    if a.LinuxReceive? && !s.linux.Receiving? {
      assert s'.done[..|s.done|] == s.done;
    }
  }

  lemma {:induction false} TimesSoFar(cfg: Config, tr: seq<State>, acts: seq<Action>, k: nat)
    requires IsRun(cfg, tr, acts) && IsInit(cfg, tr[0]) && k <= |acts|
    ensures SendTimes(acts[..k]) == AllSent(tr[k].done) + Times(tr[k].current.asked)
    ensures TakeTimes(tr, acts, k) == AllTaken(tr[k].done) + tr[k].current.recvTimes
  {
    if k > 0 {
      TimesSoFar(cfg, tr, acts, k - 1);
      StepTimes(cfg, tr[k - 1], acts[k - 1]);
      assert acts[..k][..k - 1] == acts[..k - 1];
    }
  }

  /** Where round r starts if each round has m entries. */
  ghost function StartOf(r: nat, m: nat): nat {
    if r == 0 then 0 else StartOf(r - 1, m) + m
  }

  lemma {:induction false} StartIsProduct(r: nat, m: nat)
    ensures StartOf(r, m) == r * m
  {
    if r > 0 {
      StartIsProduct(r - 1, m);
      assert r * m == (r - 1) * m + m;
    }
  }

  ghost predicate Sized(done: seq<Round>, m: nat, n: nat) {
    forall q :: 0 <= q < |done| ==> |done[q].asked| == m && |done[q].recvTimes| == n
  }

  lemma {:induction false} AllLengths(done: seq<Round>, m: nat, n: nat)
    requires Sized(done, m, n)
    ensures |AllSent(done)| == StartOf(|done|, m) && |AllTaken(done)| == StartOf(|done|, n)
  {
    if done != [] {
      AllLengths(done[..|done| - 1], m, n);
    }
  }

  /** The entries of round r sit from position a, and b, on. */
  ghost predicate RoundAt(done: seq<Round>, r: nat, a: nat, b: nat)
    requires r < |done|
  {
    && a + |done[r].asked| <= |AllSent(done)|
    && AllSent(done)[a..a + |done[r].asked|] == Times(done[r].asked)
    && b + |done[r].recvTimes| <= |AllTaken(done)|
    && AllTaken(done)[b..b + |done[r].recvTimes|] == done[r].recvTimes
  }

  lemma {:induction false} RoundsFollow(done: seq<Round>, m: nat, n: nat, r: nat)
    requires Sized(done, m, n) && r < |done|
    ensures RoundAt(done, r, StartOf(r, m), StartOf(r, n))
    decreases |done|
  {
    var k := |done| - 1;
    if r < k {
      RoundsFollow(done[..k], m, n, r);
    } else {
      AllLengths(done[..k], m, n);
    }
  }

  /**
   The round's replies, from the times at which requests were sent and taken, its own starting at positions a and b:
   the i-th latency is taken minus sent, and the summary is the time from the first to the last request.
   */
  ghost predicate MeasuredFrom(cfg: Config, round: Round, sent: seq<int>, taken: seq<int>, a: nat, b: nat) {
    && 0 < cfg.k && a + cfg.k < |sent| && b + cfg.k <= |taken| && |round.sent| == cfg.k + 1
    && (forall i :: 0 <= i < cfg.k ==>
          round.sent[i].latency == if i < cfg.slots then (taken[b + i] - sent[a + i]) % 0x1_0000_0000 else 0)
    && round.sent[cfg.k].latency == taken[b + cfg.k - 1] - taken[b]
  }

  lemma RoundLatencies(cfg: Config, round: Round, sent: seq<int>, taken: seq<int>, a: nat, b: nat)
    requires RoundComplete(cfg, round) && a + cfg.k < |sent| && b + cfg.k <= |taken|
    requires sent[a..a + cfg.k + 1] == Times(round.asked) && taken[b..b + cfg.k] == round.recvTimes
    ensures MeasuredFrom(cfg, round, sent, taken, a, b)
  {
    forall i | 0 <= i < cfg.k
      ensures taken[b + i] == round.recvTimes[i]
      ensures round.sent[i].latency == if i < cfg.slots then (taken[b + i] - sent[a + i]) % 0x1_0000_0000 else 0
    {
      assert round.sent[i] == ExpectedReply(cfg, round, i);
      assert sent[a + i] == sent[a..a + cfg.k + 1][i] && taken[b + i] == taken[b..b + cfg.k][i];
    }
    assert taken[b + 0] == round.recvTimes[0] && taken[b + (cfg.k - 1)] == round.recvTimes[cfg.k - 1];
  }

  lemma PrefixSlice(s: seq<int>, t: seq<int>, a: nat, n: nat)
    requires s <= t && a + n <= |s|
    ensures t[a..a + n] == s[a..a + n]
  {
  }

  lemma SliceIsMeasured(cfg: Config, round: Round, done: seq<int>, sent: seq<int>, took: seq<int>, taken: seq<int>, a: nat, b: nat)
    requires RoundComplete(cfg, round) && done <= sent && took <= taken
    requires a + cfg.k + 1 <= |done| && done[a..a + cfg.k + 1] == Times(round.asked)
    requires b + cfg.k <= |took| && took[b..b + cfg.k] == round.recvTimes
    ensures MeasuredFrom(cfg, round, sent, taken, a, b)
  {
    PrefixSlice(done, sent, a, cfg.k + 1);
    PrefixSlice(took, taken, b, cfg.k);
    RoundLatencies(cfg, round, sent, taken, a, b);
  }

  lemma FinishedRounds(cfg: Config, tr: seq<State>, acts: seq<Action>)
    requires cfg.Valid() && IsRun(cfg, tr, acts) && IsInit(cfg, tr[0])
    ensures Sized(tr[|acts|].done, cfg.k + 1, cfg.k)
    ensures forall q :: 0 <= q < |tr[|acts|].done| ==> RoundComplete(cfg, tr[|acts|].done[q])
  {
    EveryRunCompletes(cfg, tr, acts);
    forall q | 0 <= q < |tr[|acts|].done|
      ensures |tr[|acts|].done[q].asked| == cfg.k + 1 && |tr[|acts|].done[q].recvTimes| == cfg.k
    {
      assert RoundComplete(cfg, tr[|acts|].done[q]);
    }
  }

  lemma AllTimes(cfg: Config, tr: seq<State>, acts: seq<Action>)
    requires IsRun(cfg, tr, acts) && IsInit(cfg, tr[0])
    ensures AllSent(tr[|acts|].done) <= SendTimes(acts) && AllTaken(tr[|acts|].done) <= TakeTimes(tr, acts, |acts|)
  {
    TimesSoFar(cfg, tr, acts, |acts|);
    assert acts[..|acts|] == acts;
  }

  lemma {:induction false} RoundIsMeasured(cfg: Config, done: seq<Round>, sent: seq<int>, taken: seq<int>, r: nat)
    requires Sized(done, cfg.k + 1, cfg.k) && r < |done| && RoundComplete(cfg, done[r])
    requires AllSent(done) <= sent && AllTaken(done) <= taken
    ensures MeasuredFrom(cfg, done[r], sent, taken, StartOf(r, cfg.k + 1), StartOf(r, cfg.k))
  {
    RoundsFollow(done, cfg.k + 1, cfg.k, r);
    SliceIsMeasured(cfg, done[r], AllSent(done), sent, AllTaken(done), taken, StartOf(r, cfg.k + 1), StartOf(r, cfg.k));
  }

  /**
   In every run, what finished round r reports is measured from the times of that round's own actions: its send
   actions start at position r * (K + 1) among all send actions, its receive actions at position r * K.
   */
  lemma LatenciesAreMeasured(cfg: Config, tr: seq<State>, acts: seq<Action>, r: nat)
    requires cfg.Valid() && IsRun(cfg, tr, acts) && IsInit(cfg, tr[0]) && r < |tr[|acts|].done|
    ensures MeasuredFrom(cfg, tr[|acts|].done[r], SendTimes(acts), TakeTimes(tr, acts, |acts|),
                         StartOf(r, cfg.k + 1), StartOf(r, cfg.k))
  {
    FinishedRounds(cfg, tr, acts);
    AllTimes(cfg, tr, acts);
    RoundIsMeasured(cfg, tr[|acts|].done, SendTimes(acts), TakeTimes(tr, acts, |acts|), r);
  }

  // ------------------------------------------------- the constants of the test

  /** With as many latency slots as packets no latency is lost: every reply carries the measured one, in at most 500040 steps. */
  lemma ConfiguredTest(cfg: Config, tr: seq<State>, acts: seq<Action>)
    requires cfg.Valid() && cfg.k == 10000 && cfg.slots == 10000 && cfg.rounds == 10
    requires IsRun(cfg, tr, acts) && IsInit(cfg, tr[0])
    ensures |acts| <= 500040
    ensures forall r, i :: 0 <= r < |tr[|acts|].done| && 0 <= i < 10000 ==>
      var round := tr[|acts|].done[r];
      && |round.asked| == |round.sent| == 10001 && |round.recvTimes| == 10000
      && round.sent[i].latency == Low(round.recvTimes[i] - round.asked[i].sendTime)
  {
    EveryRunCompletes(cfg, tr, acts);
    forall r, i | 0 <= r < |tr[|acts|].done| && 0 <= i < 10000
      ensures var round := tr[|acts|].done[r];
        && |round.asked| == |round.sent| == 10001 && |round.recvTimes| == 10000
        && round.sent[i].latency == Low(round.recvTimes[i] - round.asked[i].sendTime)
    {
      var round := tr[|acts|].done[r];
      assert RoundComplete(cfg, round);
      assert round.sent[i] == ExpectedReply(cfg, round, i);
    }
  }
}
