/**
 The statistics channel: a producer keeps its last B measurements in a shift
 register and sends the whole register; packets may be dropped; the consumer
 rebuilds the sequence of measurements and counts what it can no longer recover.
 */
module StatsChannel {
  import opened Bytes

  const BACKLOG := 16

  /** What one run of a task measured: 64-bit start time and duration, in timer ticks. */
  datatype Sample = Sample(start: nat, duration: nat)

  /** The statistics part of a packet; every field is a 32-bit word. */
  datatype Stats = Stats(iteration: nat, startTimes: seq<nat>, durations: seq<nat>)

  datatype Record = Record(iteration: nat, start: nat, duration: nat)

  datatype Consumer = Consumer(
    iteration: int,
    missed: nat,
    prevStartLow: nat,
    startHigh: nat,
    records: seq<Record>)

  const FRESH := Consumer(-1, 0, 0, 0, [])

  /** The packet sent in iteration n: entry i belongs to iteration n - i, entries not filled yet are zero. */
  function PacketOf(h: seq<Sample>, n: nat, b: nat): (st: Stats)
    requires n < |h|
    ensures |st.startTimes| == |st.durations| == b
  {
    Stats(Low(n),
          seq(b, i => if 0 <= i <= n then Low(h[n - i].start) else 0),
          seq(b, i => if 0 <= i <= n then Low(h[n - i].duration) else 0))
  }

  /** One turn of the consumer's loop: widen the start time and append entry i. */
  function Push(c: Consumer, st: Stats, i: nat): Consumer
    requires i < |st.startTimes| == |st.durations|
  {
    var low := st.startTimes[i];
    var high := if low < c.prevStartLow then Low(c.startHigh + 1) else c.startHigh;
    c.(prevStartLow := low, startHigh := high,
       records := c.records + [Record(Low(st.iteration - i), high * TWO_TO_32 + low, st.durations[i])])
  }

  /** Entries i-1, i-2, ..., 0 in that order. */
  function Replay(c: Consumer, st: Stats, i: nat): Consumer
    requires i <= |st.startTimes| == |st.durations|
    decreases i
  {
    if i == 0 then c else Replay(Push(c, st, i - 1), st, i - 1)
  }

  function Add(c: Consumer, st: Stats): Consumer
    requires |st.startTimes| == |st.durations|
  {
    if st.iteration <= c.iteration then c
    else
      var newCount := Low(st.iteration - c.iteration);
      var b := |st.startTimes|;
      var kept := Min(newCount, b);
      var missed := if newCount > b then Low(c.missed + (newCount - b)) else c.missed;
      Replay(c.(missed := missed), st, kept).(iteration := st.iteration)
  }

  // ---------------------------------------------------------------- invariant

  /** The true start time of the iteration a record is about. */
  ghost function TrueStart(h: seq<Sample>, r: Record): nat
    requires r.iteration < |h|
  {
    h[r.iteration].start
  }

  ghost predicate RecordsAgree(h: seq<Sample>, rs: seq<Record>) {
    && (forall k :: 0 <= k < |rs| ==>
          && rs[k].iteration < |h|
          && rs[k].duration == Low(h[rs[k].iteration].duration)
          && Low(rs[k].start) == Low(h[rs[k].iteration].start))
    && (forall k :: 0 < k < |rs| ==> rs[k - 1].iteration < rs[k].iteration)
  }

  /** Rebuilt times advance by the true difference modulo 2^32, starting below 2^32. */
  ghost predicate TimesAgree(h: seq<Sample>, rs: seq<Record>)
    requires RecordsAgree(h, rs)
  {
    && (rs != [] ==> rs[0].start < TWO_TO_32)
    && (forall k :: 0 < k < |rs| ==>
          rs[k].start - rs[k - 1].start == Low(TrueStart(h, rs[k]) - TrueStart(h, rs[k - 1])))
  }

  /** `last` is the iteration of the last record, -1 before the first. */
  ghost predicate Tracks(h: seq<Sample>, c: Consumer, last: int) {
    && RecordsAgree(h, c.records) && TimesAgree(h, c.records)
    && |c.records| <= last + 1 <= |h|
    && (c.records == [] ==> c.prevStartLow == 0 && c.startHigh == 0)
    && (c.records != [] ==>
          var r := c.records[|c.records| - 1];
          && r.iteration == last
          && r.start == c.startHigh * TWO_TO_32 + c.prevStartLow && c.prevStartLow < TWO_TO_32)
    && c.startHigh <= |c.records|
  }

  ghost predicate Inv(h: seq<Sample>, c: Consumer) {
    && Tracks(h, c, c.iteration)
    && (c.records == [] <==> c.iteration == -1)
    && |c.records| + c.missed == c.iteration + 1
  }

  /** The consumer after appending the measurement `x` of iteration m. */
  function Appended(c: Consumer, m: nat, x: Sample): Consumer {
    var low := Low(x.start);
    var high := if low < c.prevStartLow then c.startHigh + 1 else c.startHigh;
    c.(prevStartLow := low, startHigh := high,
       records := c.records + [Record(m, high * TWO_TO_32 + low, Low(x.duration))])
  }

  lemma PushAppends(h: seq<Sample>, c: Consumer, n: nat, b: nat, i: nat)
    requires n < |h| && n + 1 < TWO_TO_32 && i < b && i <= n && c.startHigh + 1 < TWO_TO_32
    ensures Push(c, PacketOf(h, n, b), i) == Appended(c, n - i, h[n - i])
  {
  }

  lemma AppendedTracks(h: seq<Sample>, c: Consumer, last: int, m: nat)
    requires Tracks(h, c, last) && last < m < |h|
    ensures Tracks(h, Appended(c, m, h[m]), m)
  {
    var c' := Appended(c, m, h[m]);
    var k := |c.records|;
    var r := c'.records[k];
    assert Low(r.start) == Low(h[m].start) by {
      LowOfWidened(c'.startHigh, h[m].start);
    }
    RecordAppended(h, c.records, r);
    if k > 0 {
      var p := c.records[k - 1];
      assert r.start - p.start == Low(TrueStart(h, r) - TrueStart(h, p)) by {
        LowOfWidened(c.startHigh, c.prevStartLow);
        WideningStep(c.startHigh, TrueStart(h, p), TrueStart(h, r));
      }
    }
    TimeAppended(h, c.records, r);
  }

  lemma PushTracks(h: seq<Sample>, c: Consumer, last: int, n: nat, b: nat, i: nat)
    requires n < |h| && n + 1 < TWO_TO_32 && i < b && i <= n
    requires Tracks(h, c, last) && last < n - i
    ensures Tracks(h, Push(c, PacketOf(h, n, b), i), n - i)
    ensures |Push(c, PacketOf(h, n, b), i).records| == |c.records| + 1
    ensures Push(c, PacketOf(h, n, b), i).missed == c.missed
  {
    PushAppends(h, c, n, b, i);
    AppendedTracks(h, c, last, n - i);
  }

  lemma LowOfWidened(high: nat, x: nat)
    ensures Low(high * TWO_TO_32 + Low(x)) == Low(x)
  {
  }

  /** Carrying into the high word when the low word went down adds the true difference modulo 2^32. */
  lemma WideningStep(high: nat, before: nat, after: nat)
    ensures var high' := if Low(after) < Low(before) then high + 1 else high;
      high' * TWO_TO_32 + Low(after) - (high * TWO_TO_32 + Low(before)) == Low(after - before)
  {
  }

  lemma RecordAppended(h: seq<Sample>, rs: seq<Record>, r: Record)
    requires RecordsAgree(h, rs) && r.iteration < |h|
    requires r.duration == Low(h[r.iteration].duration) && Low(r.start) == Low(h[r.iteration].start)
    requires rs != [] ==> rs[|rs| - 1].iteration < r.iteration
    ensures RecordsAgree(h, rs + [r])
  {
  }

  lemma TimeAppended(h: seq<Sample>, rs: seq<Record>, r: Record)
    requires RecordsAgree(h, rs) && RecordsAgree(h, rs + [r]) && TimesAgree(h, rs) && r.iteration < |h|
    requires rs == [] ==> r.start < TWO_TO_32
    requires rs != [] ==>
      r.start - rs[|rs| - 1].start == Low(TrueStart(h, r) - TrueStart(h, rs[|rs| - 1]))
    ensures TimesAgree(h, rs + [r])
  {
    var rs' := rs + [r];
    forall k | 0 < k < |rs'|
      ensures rs'[k].start - rs'[k - 1].start == Low(TrueStart(h, rs'[k]) - TrueStart(h, rs'[k - 1]))
    {
      if k < |rs| {
        assert rs'[k] == rs[k] && rs'[k - 1] == rs[k - 1];
      }
    }
  }

  lemma {:induction false} ReplayTracks(h: seq<Sample>, c: Consumer, last: int, n: nat, b: nat, i: nat)
    requires n < |h| && n + 1 < TWO_TO_32 && 0 < i <= b && i <= n + 1
    requires Tracks(h, c, last) && last <= n - i
    ensures Tracks(h, Replay(c, PacketOf(h, n, b), i), n)
    ensures |Replay(c, PacketOf(h, n, b), i).records| == |c.records| + i
    ensures Replay(c, PacketOf(h, n, b), i).missed == c.missed
    decreases i
  {
    PushTracks(h, c, last, n, b, i - 1);
    if i > 1 {
      ReplayTracks(h, Push(c, PacketOf(h, n, b), i - 1), n - (i - 1), n, b, i - 1);
    }
  }

  lemma SmallIsLow(x: int)
    requires 0 <= x < TWO_TO_32
    ensures Low(x) == x
  {
  }

  /** Without wrap-around, a packet k iterations ahead brings its last `kept` entries. */
  lemma AddUnfolds(h: seq<Sample>, c: Consumer, n: nat, b: nat, kept: nat)
    requires n < |h| && n + 1 < TWO_TO_32 && 0 < b && -1 <= c.iteration < n && c.missed <= c.iteration + 1
    requires kept == Min(n - c.iteration, b)
    ensures Add(c, PacketOf(h, n, b))
      == Replay(c.(missed := c.missed + (n - c.iteration - kept)), PacketOf(h, n, b), kept).(iteration := n)
  {
    var st := PacketOf(h, n, b);
    SmallIsLow(n);
    SmallIsLow(n - c.iteration);
    SmallIsLow(c.missed + (n - c.iteration - kept));
    assert st.iteration == n && |st.startTimes| == b;
  }

  /** A later packet extends the rebuilt sequence; an old or repeated one changes nothing. */
  lemma AddKeepsInv(h: seq<Sample>, c: Consumer, n: nat, b: nat)
    requires n < |h| && n + 1 < TWO_TO_32 && 0 < b
    requires Inv(h, c)
    ensures Inv(h, Add(c, PacketOf(h, n, b)))
    ensures var c' := Add(c, PacketOf(h, n, b));
      if n <= c.iteration then c' == c
      else c'.iteration == n && c'.missed == c.missed + (if n - c.iteration > b then n - c.iteration - b else 0)
  {
    SmallIsLow(n);
    if n > c.iteration {
      var kept := Min(n - c.iteration, b);
      AddUnfolds(h, c, n, b, kept);
      ReplayTracks(h, c.(missed := c.missed + (n - c.iteration - kept)), c.iteration, n, b, kept);
    }
  }

  // ---------------------------------------------------------------- whole runs

  /** The consumer after the packets of iterations `ns`, in that order, from a full history h. */
  ghost function Received(h: seq<Sample>, ns: seq<nat>, b: nat): Consumer
    requires forall i :: 0 <= i < |ns| ==> ns[i] < |h|
  {
    if ns == [] then FRESH
    else Add(Received(h, ns[..|ns| - 1], b), PacketOf(h, ns[|ns| - 1], b))
  }

  /** The packets are of measured iterations, and their numbers and counts fit 32 bits. */
  ghost predicate InRange(h: seq<Sample>, ns: seq<nat>) {
    forall i :: 0 <= i < |ns| ==> ns[i] < |h| && ns[i] + 1 < TWO_TO_32
  }

  /** Later measurements do not change the packet of an earlier iteration. */
  lemma PacketStays(h: seq<Sample>, h': seq<Sample>, n: nat, b: nat)
    requires h <= h' && n < |h|
    ensures PacketOf(h', n, b) == PacketOf(h, n, b)
  {
    var st, st' := PacketOf(h, n, b), PacketOf(h', n, b);
    assert st'.startTimes == st.startTimes && st'.durations == st.durations;
  }

  lemma {:induction false} ReceivedStays(h: seq<Sample>, h': seq<Sample>, ns: seq<nat>, b: nat)
    requires h <= h' && forall i :: 0 <= i < |ns| ==> ns[i] < |h|
    ensures Received(h', ns, b) == Received(h, ns, b)
  {
    if ns != [] {
      ReceivedStays(h, h', ns[..|ns| - 1], b);
      PacketStays(h, h', ns[|ns| - 1], b);
    }
  }

  lemma ReceivedStep(h: seq<Sample>, ns: seq<nat>, n: nat, b: nat)
    requires n < |h| && forall i :: 0 <= i < |ns| ==> ns[i] < |h|
    ensures Received(h, ns + [n], b) == Add(Received(h, ns, b), PacketOf(h, n, b))
  {
    assert (ns + [n])[..|ns|] == ns;
  }

  lemma {:induction false} ReceivedKeepsInv(h: seq<Sample>, ns: seq<nat>, b: nat)
    requires 0 < b && InRange(h, ns)
    ensures Inv(h, Received(h, ns, b))
  {
    if ns == [] {
    } else {
      ReceivedKeepsInv(h, ns[..|ns| - 1], b);
      AddKeepsInv(h, Received(h, ns[..|ns| - 1], b), ns[|ns| - 1], b);
    }
  }

  lemma ReceivedSomething(h: seq<Sample>, ns: seq<nat>, b: nat)
    requires 0 < b && ns != [] && InRange(h, ns)
    ensures Received(h, ns, b).iteration >= ns[|ns| - 1]
  {
    ReceivedKeepsInv(h, ns[..|ns| - 1], b);
    AddKeepsInv(h, Received(h, ns[..|ns| - 1], b), ns[|ns| - 1], b);
  }

  /** Every record is what its iteration measured; iterations increase; records and misses account for all of them. */
  lemma ReconstructionIsExact(h: seq<Sample>, ns: seq<nat>, b: nat)
    requires 0 < b && InRange(h, ns)
    ensures var c := Received(h, ns, b);
      && (forall k :: 0 <= k < |c.records| ==>
            && c.records[k].iteration < |h|
            && c.records[k].duration == Low(h[c.records[k].iteration].duration)
            && Low(c.records[k].start) == Low(h[c.records[k].iteration].start))
      && (forall k :: 0 < k < |c.records| ==> c.records[k - 1].iteration < c.records[k].iteration)
      && |c.records| + c.missed == c.iteration + 1
      && (ns != [] ==> c.records != [] && c.records[|c.records| - 1].iteration == c.iteration)
  {
    ReceivedKeepsInv(h, ns, b);
    if ns != [] {
      ReceivedSomething(h, ns, b);
    }
  }

  // ------------------------------------------- what the 32-bit numbers allow

  lemma {:induction false} ReplayCounts(c: Consumer, st: Stats, i: nat)
    requires i <= |st.startTimes| == |st.durations|
    ensures |Replay(c, st, i).records| == |c.records| + i && Replay(c, st, i).missed == c.missed
    decreases i
  {
    if i > 0 {
      ReplayCounts(Push(c, st, i - 1), st, i - 1);
    }
  }

  /** Records and misses account for all iterations up to the newest number, unless that is the first and largest one. */
  ghost predicate Accounted(c: Consumer) {
    && -1 <= c.iteration < TWO_TO_32
    && (|c.records| + c.missed == c.iteration + 1
        || (c.iteration == TWO_TO_32 - 1 && c.records == [] && c.missed == 0))
  }

  lemma AddAccounts(c: Consumer, st: Stats)
    requires Accounted(c) && 0 <= st.iteration < TWO_TO_32 && 0 < |st.startTimes| == |st.durations|
    ensures Accounted(Add(c, st))
    ensures Add(c, st).iteration == if st.iteration <= c.iteration then c.iteration else st.iteration
    ensures 0 <= c.iteration < st.iteration ==> Add(c, st).records != []
    ensures c == FRESH && st.iteration == TWO_TO_32 - 1 ==> Add(c, st).records == [] && Add(c, st).missed == 0
  {
    var d, b := st.iteration - c.iteration, |st.startTimes|;
    if d > 0 {
      var kept := Min(Low(d), b);
      if d < TWO_TO_32 {
        SmallIsLow(d);
        SmallIsLow(c.missed + (d - kept));
      }
      ReplayCounts(c.(missed := if Low(d) > b then Low(c.missed + (Low(d) - b)) else c.missed), st, kept);
    }
  }

  lemma {:induction false} ReceivedAccounts(h: seq<Sample>, ns: seq<nat>, b: nat)
    requires 0 < b && forall i :: 0 <= i < |ns| ==> ns[i] < |h|
    ensures Accounted(Received(h, ns, b))
  {
    if ns != [] {
      ReceivedAccounts(h, ns[..|ns| - 1], b);
      AddAccounts(Received(h, ns[..|ns| - 1], b), PacketOf(h, ns[|ns| - 1], b));
    }
  }

  ghost predicate InOrder(ns: seq<nat>) {
    forall i :: 0 < i < |ns| ==> ns[i - 1] < ns[i]
  }

  lemma {:induction false} NewestIsLast(h: seq<Sample>, ns: seq<nat>, b: nat)
    requires 0 < b && ns != [] && InOrder(ns) && ns[|ns| - 1] < TWO_TO_32
    requires forall i :: 0 <= i < |ns| ==> ns[i] < |h|
    ensures Received(h, ns, b).iteration == ns[|ns| - 1]
  {
    var before, n := ns[..|ns| - 1], ns[|ns| - 1];
    SmallIsLow(n);
    ReceivedAccounts(h, before, b);
    AddAccounts(Received(h, before, b), PacketOf(h, n, b));
    if before != [] {
      assert ns[|ns| - 2] < n;
      NewestIsLast(h, before, b);
    }
  }

  /**
   For packets in order, whatever the length of the run: records and misses add up to the iterations so far exactly if
   the newest number is below 2^32 - 1, or is 2^32 - 1 and not the first to arrive.
   */
  lemma AccountedIff(h: seq<Sample>, ns: seq<nat>, b: nat)
    requires 0 < b && ns != [] && InOrder(ns)
    requires forall i :: 0 <= i < |ns| ==> ns[i] < |h|
    ensures var c, newest := Received(h, ns, b), ns[|ns| - 1];
      |c.records| + c.missed == newest + 1
      <==> newest < TWO_TO_32 - 1 || (newest == TWO_TO_32 - 1 && |ns| >= 2)
  {
    var before, n := ns[..|ns| - 1], ns[|ns| - 1];
    ReceivedAccounts(h, ns, b);
    if n < TWO_TO_32 {
      NewestIsLast(h, ns, b);
    }
    if n == TWO_TO_32 - 1 {
      SmallIsLow(n);
      ReceivedAccounts(h, before, b);
      AddAccounts(Received(h, before, b), PacketOf(h, n, b));
      if before != [] {
        assert ns[|ns| - 2] < n;
        NewestIsLast(h, before, b);
      }
    }
  }

  /** A packet whose number, cut to 32 bits, is not above the newest one changes nothing. */
  lemma OldNumberIsIgnored(h: seq<Sample>, c: Consumer, n: nat, b: nat)
    requires n < |h| && Low(n) <= c.iteration
    ensures Add(c, PacketOf(h, n, b)) == c
  {
  }

  /** Once the 32-bit iteration number has wrapped, new packets look old: nothing is recorded, nothing is counted as missed. */
  lemma WrapStopsTheConsumer(h: seq<Sample>, b: nat)
    requires 0 < b && |h| > TWO_TO_32
    ensures Received(h, [TWO_TO_32 - 2] + [TWO_TO_32], b) == Received(h, [TWO_TO_32 - 2], b)
  {
    NewestIsLast(h, [TWO_TO_32 - 2], b);
    ReceivedStep(h, [TWO_TO_32 - 2], TWO_TO_32, b);
    OldNumberIsIgnored(h, Received(h, [TWO_TO_32 - 2], b), TWO_TO_32, b);
  }

  /** If the largest number is the first to arrive, all 2^32 iterations before it are neither recorded nor counted as missed. */
  lemma LargestNumberFirst(h: seq<Sample>, b: nat)
    requires 0 < b && |h| >= TWO_TO_32
    ensures Received(h, [TWO_TO_32 - 1], b).records == [] && Received(h, [TWO_TO_32 - 1], b).missed == 0
  {
    AddAccounts(FRESH, PacketOf(h, TWO_TO_32 - 1, b));
  }

  ghost predicate GapsBelowLap(h: seq<Sample>, rs: seq<Record>)
    requires RecordsAgree(h, rs)
  {
    forall k :: 0 < k < |rs| ==> 0 <= TrueStart(h, rs[k]) - TrueStart(h, rs[k - 1]) < TWO_TO_32
  }

  ghost predicate ConstantOffset(h: seq<Sample>, rs: seq<Record>)
    requires RecordsAgree(h, rs)
  {
    forall k :: 0 <= k < |rs| ==> rs[k].start - TrueStart(h, rs[k]) == rs[0].start - TrueStart(h, rs[0])
  }

  lemma {:induction false} OffsetSpreads(h: seq<Sample>, rs: seq<Record>, k: nat)
    requires RecordsAgree(h, rs) && TimesAgree(h, rs) && GapsBelowLap(h, rs) && k < |rs|
    ensures rs[k].start - TrueStart(h, rs[k]) == rs[0].start - TrueStart(h, rs[0])
  {
    if k == 0 {
    } else {
      OffsetSpreads(h, rs, k - 1);
    }
  }

  /** Rebuilt 64-bit times are off by one constant exactly when consecutive recorded starts are less than 2^32 ticks apart. */
  lemma WideningIsExactIff(h: seq<Sample>, ns: seq<nat>, b: nat)
    requires 0 < b && InRange(h, ns)
    ensures var rs := Received(h, ns, b).records;
      RecordsAgree(h, rs) && (ConstantOffset(h, rs) <==> GapsBelowLap(h, rs))
  {
    ReceivedKeepsInv(h, ns, b);
    var rs := Received(h, ns, b).records;
    if GapsBelowLap(h, rs) {
      forall k | 0 <= k < |rs|
        ensures rs[k].start - TrueStart(h, rs[k]) == rs[0].start - TrueStart(h, rs[0])
      {
        OffsetSpreads(h, rs, k);
      }
    }
    if ConstantOffset(h, rs) {
      forall k | 0 < k < |rs|
        ensures 0 <= TrueStart(h, rs[k]) - TrueStart(h, rs[k - 1]) < TWO_TO_32
      {
        assert rs[k].start - TrueStart(h, rs[k]) == rs[k - 1].start - TrueStart(h, rs[k - 1]);
      }
    }
  }

  // --------------------------------------- the shared-memory variant's schedule

  const SEND_DELAY := 8

  /** The iteration whose register the k-th send carries: the first tick is skipped but counted. */
  function SentIteration(k: nat): nat {
    SEND_DELAY * (k + 1) - 2
  }

  /** The sends carry the registers of iterations 6, 14, 22 and so on, sixteen entries each. */
  lemma SendSchedule(h: seq<Sample>, k: nat)
    requires 8 * k + 6 < |h|
    ensures SentIteration(k) == 8 * k + 6
    ensures |PacketOf(h, SentIteration(k), BACKLOG).startTimes| == 16
  {
  }

  /** The consumer after sends 0, 1, ..., of which only those marked true arrive. */
  ghost function AfterSends(h: seq<Sample>, arrived: seq<bool>): Consumer
    requires SEND_DELAY * |arrived| <= |h| + 1
  {
    if arrived == [] then FRESH
    else
      var k := |arrived| - 1;
      var c := AfterSends(h, arrived[..k]);
      if arrived[k] then Add(c, PacketOf(h, SentIteration(k), BACKLOG)) else c
  }

  lemma {:induction false} AfterSendsStays(h: seq<Sample>, h': seq<Sample>, arrived: seq<bool>)
    requires h <= h' && SEND_DELAY * |arrived| <= |h| + 1
    ensures AfterSends(h', arrived) == AfterSends(h, arrived)
  {
    if arrived != [] {
      AfterSendsStays(h, h', arrived[..|arrived| - 1]);
      PacketStays(h, h', SentIteration(|arrived| - 1), BACKLOG);
    }
  }

  ghost function LastArrival(arrived: seq<bool>): (last: int)
    ensures -1 <= last < |arrived|
    ensures last >= 0 ==> arrived[last]
    ensures forall k :: last < k < |arrived| ==> !arrived[k]
  {
    if arrived == [] then -1
    else if arrived[|arrived| - 1] then |arrived| - 1
    else LastArrival(arrived[..|arrived| - 1])
  }

  ghost predicate DoubleDrop(arrived: seq<bool>, i: nat) {
    i + 1 < |arrived| && !arrived[i] && !arrived[i + 1]
  }

  /** No packet arrives after two consecutive dropped ones. */
  ghost predicate NoDoubleDropBeforeArrival(arrived: seq<bool>) {
    forall i: nat, j: nat :: DoubleDrop(arrived, i) && i + 1 < j < |arrived| ==> !arrived[j]
  }

  /** A good pattern that ends at most one packet after an arrival has no double drop at all. */
  lemma NoDoubleDropAtAll(q: seq<bool>, i: nat)
    requires NoDoubleDropBeforeArrival(q) && |q| - LastArrival(q) <= 2
    ensures !DoubleDrop(q, i)
  {
    var last := LastArrival(q);
    assert last > i + 1 ==> q[last];
  }

  lemma DoubleDropKept(q: seq<bool>, x: bool, i: nat)
    requires i + 1 < |q|
    ensures DoubleDrop(q + [x], i) <==> DoubleDrop(q, i)
  {
  }

  lemma PrefixHasNoDoubleDrop(q: seq<bool>, x: bool)
    requires NoDoubleDropBeforeArrival(q + [x])
    ensures NoDoubleDropBeforeArrival(q)
  {
    forall i: nat, j: nat | DoubleDrop(q, i) && i + 1 < j < |q|
      ensures !q[j]
    {
      DoubleDropKept(q, x, i);
      assert !(q + [x])[j];
    }
  }

  /** Appending an arrival keeps the pattern good unless the last two packets before it were dropped. */
  lemma ArrivalAppended(q: seq<bool>)
    ensures NoDoubleDropBeforeArrival(q + [true])
      <==> NoDoubleDropBeforeArrival(q) && |q| - LastArrival(q) <= 2
  {
    var p := q + [true];
    if |q| - LastArrival(q) > 2 {
      assert DoubleDrop(p, |q| - 2) && p[|q|];
    } else if NoDoubleDropBeforeArrival(q) {
      forall i: nat
        ensures !DoubleDrop(p, i)
      {
        if i + 1 < |q| {
          DoubleDropKept(q, true, i);
          NoDoubleDropAtAll(q, i);
        }
      }
    } else if NoDoubleDropBeforeArrival(p) {
      PrefixHasNoDoubleDrop(q, true);
    }
  }

  lemma DropAppended(q: seq<bool>)
    ensures NoDoubleDropBeforeArrival(q + [false]) <==> NoDoubleDropBeforeArrival(q)
  {
    var p := q + [false];
    if NoDoubleDropBeforeArrival(p) {
      PrefixHasNoDoubleDrop(q, false);
    }
    if NoDoubleDropBeforeArrival(q) {
      forall i: nat, j: nat | DoubleDrop(p, i) && i + 1 < j < |p|
        ensures !p[j]
      {
        DoubleDropKept(q, false, i);
      }
    }
  }

  /** What is known of the consumer after a pattern of arrivals. */
  ghost predicate AfterPattern(h: seq<Sample>, c: Consumer, arrived: seq<bool>) {
    var last := LastArrival(arrived);
    && Inv(h, c)
    && c.iteration == (if last < 0 then -1 else SentIteration(last))
    && (c.missed == 0 <==> NoDoubleDropBeforeArrival(arrived))
  }

  /** Sending every 8 ticks, a packet adds no miss exactly when at most one send since the last arrival was dropped. */
  lemma GapFitsBacklog(last: int, k: nat)
    requires -1 <= last < k
    ensures var before := if last < 0 then -1 else SentIteration(last);
      before < SentIteration(k) && (SentIteration(k) - before <= BACKLOG <==> k - last <= 2)
  {
  }

  lemma ArrivalStep(h: seq<Sample>, c: Consumer, q: seq<bool>)
    requires |h| < TWO_TO_32 && SEND_DELAY * (|q| + 1) <= |h| + 1 && AfterPattern(h, c, q)
    ensures AfterPattern(h, Add(c, PacketOf(h, SentIteration(|q|), BACKLOG)), q + [true])
  {
    GapFitsBacklog(LastArrival(q), |q|);
    AddKeepsInv(h, c, SentIteration(|q|), BACKLOG);
    ArrivalAppended(q);
  }

  lemma DropStep(h: seq<Sample>, c: Consumer, q: seq<bool>)
    requires AfterPattern(h, c, q)
    ensures AfterPattern(h, c, q + [false])
  {
    DropAppended(q);
    assert (q + [false])[..|q|] == q;
  }

  lemma NothingSent(h: seq<Sample>)
    ensures AfterPattern(h, AfterSends(h, []), [])
  {
  }

  /** One more send: the consumer sees it or not. */
  lemma AfterSendsStep(h: seq<Sample>, q: seq<bool>, x: bool)
    requires SEND_DELAY * (|q| + 1) <= |h| + 1
    ensures var c := AfterSends(h, q);
      AfterSends(h, q + [x]) == if x then Add(c, PacketOf(h, SentIteration(|q|), BACKLOG)) else c
  {
    assert (q + [x])[..|q|] == q;
  }

  lemma PatternStep(h: seq<Sample>, q: seq<bool>, x: bool)
    requires |h| < TWO_TO_32 && SEND_DELAY * (|q| + 1) <= |h| + 1 && AfterPattern(h, AfterSends(h, q), q)
    ensures AfterPattern(h, AfterSends(h, q + [x]), q + [x])
  {
    AfterSendsStep(h, q, x);
    if x {
      ArrivalStep(h, AfterSends(h, q), q);
    } else {
      DropStep(h, AfterSends(h, q), q);
    }
  }

  /** With a register of 16 and a send every 8 ticks, entries are lost exactly when two sends in a row were dropped before an arrival. */
  lemma {:induction false} SingleDropsLoseNothing(h: seq<Sample>, arrived: seq<bool>)
    requires |h| < TWO_TO_32 && SEND_DELAY * |arrived| <= |h| + 1
    ensures AfterPattern(h, AfterSends(h, arrived), arrived)
  {
    if arrived == [] {
      NothingSent(h);
    } else {
      var q, x := arrived[..|arrived| - 1], arrived[|arrived| - 1];
      assert q + [x] == arrived;
      SingleDropsLoseNothing(h, q);
      PatternStep(h, q, x);
    }
  }
}
