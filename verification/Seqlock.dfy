/**
 The shared-memory snapshot: the bare-metal T0 task writes, the Linux thread reads.

 The 32-bit counter is odd while an update is in progress.  The updated fields
 (timestamp, previous update time, variables) are a sequence of words; each word is
 stored and loaded in its own step, and neither side is held to an order.  Counts
 of increments are unbounded here; the code only ever sees them modulo 2^32.
 */
module Seqlock {
  import opened Bytes
  import ModArith

  type Words = seq<int>

  datatype Writer = WriterIdle | Writing(values: Words, stored: set<nat>)

  datatype Reader = ReaderIdle | WaitingForEven | Copying(start: nat, got: map<nat, int>)

  /** A read that returned true: what it returned, and the counts at its first and last counter load. */
  datatype Accepted = Accepted(values: Words, start: nat, end: nat)

  /** A read that returned false: the count then, and the start count of the last accepted read. */
  datatype NothingNew = NothingNew(count: nat, prev: nat)

  datatype State = State(
    mem: Words,
    count: nat,
    updates: seq<Words>,
    writer: Writer,
    reader: Reader,
    prev: nat,
    accepted: seq<Accepted>,
    refused: seq<NothingNew>)

  datatype Action =
    | BeginUpdate(values: Words)
    | StoreWord(j: nat)
    | EndUpdate
    | BeginRead
    | LoadCounter
    | LoadWord(j: nat)
    | Recheck

  predicate ByWriter(a: Action) {
    a.BeginUpdate? || a.StoreWord? || a.EndUpdate?
  }

  /** What the 32-bit counter shows. */
  function Shown(count: nat): nat {
    count % TWO_TO_32
  }

  predicate Ready(n: nat, w: Writer, r: Reader, a: Action) {
    match a
    case BeginUpdate(values) => w.WriterIdle? && |values| == n
    case StoreWord(j) => w.Writing? && j < n
    case EndUpdate => w.Writing? && forall j :: 0 <= j < n ==> j in w.stored
    case BeginRead => r.ReaderIdle?
    case LoadCounter => r.WaitingForEven?
    case LoadWord(j) => r.Copying? && j < n
    case Recheck => r.Copying? && forall j :: 0 <= j < n ==> j in r.got
  }

  ghost predicate Enabled(s: State, a: Action) {
    && Ready(|s.mem|, s.writer, s.reader, a)
    && (s.writer.Writing? ==> |s.writer.values| == |s.mem|)
  }

  function Copied(n: nat, got: map<nat, int>): Words
    requires forall j :: 0 <= j < n ==> j in got
  {
    seq(n, j requires 0 <= j < n => got[j])
  }

  ghost function Next(s: State, a: Action): State
    requires Enabled(s, a)
  {
    match a
    case BeginUpdate(values) => s.(count := s.count + 1, writer := Writing(values, {}))
    case StoreWord(j) =>
      s.(mem := s.mem[j := s.writer.values[j]], writer := s.writer.(stored := s.writer.stored + {j}))
    case EndUpdate =>
      s.(count := s.count + 1, writer := WriterIdle, updates := s.updates + [s.writer.values])
    case BeginRead => s.(reader := WaitingForEven)
    case LoadCounter =>
      if Shown(s.count) % 2 == 1 then s
      else if Shown(s.count) == Shown(s.prev)
      then s.(reader := ReaderIdle, refused := s.refused + [NothingNew(s.count, s.prev)])
      else s.(reader := Copying(s.count, map[]))
    case LoadWord(j) => s.(reader := s.reader.(got := s.reader.got[j := s.mem[j]]))
    case Recheck =>
      if Shown(s.count) == Shown(s.reader.start)
      then s.(reader := ReaderIdle, prev := s.reader.start,
              accepted := s.accepted + [Accepted(Copied(|s.mem|, s.reader.got), s.reader.start, s.count)])
      else s.(reader := WaitingForEven)
  }

  /** The bare-metal side clears the shared memory before it starts; the reader has seen counter 0. */
  ghost predicate IsInit(s: State) {
    s == State(s.mem, 0, [s.mem], WriterIdle, ReaderIdle, 0, [], [])
  }

  // ---------------------------------------------------------------- invariant

  /** update[0] is the cleared memory, update[k] what the k-th update stored. */
  ghost predicate WriterAgrees(s: State) {
    && |s.updates| == s.count / 2 + 1
    && (forall i :: 0 <= i < |s.updates| ==> |s.updates[i]| == |s.mem|)
    && match s.writer
       case WriterIdle => s.count % 2 == 0 && s.mem == s.updates[s.count / 2]
       case Writing(values, stored) =>
         && s.count % 2 == 1 && |values| == |s.mem|
         && forall j :: 0 <= j < |s.mem| ==>
              s.mem[j] == if j in stored then values[j] else s.updates[s.count / 2][j]
  }

  ghost predicate ReaderAgrees(s: State)
    requires |s.updates| == s.count / 2 + 1
    requires forall i :: 0 <= i < |s.updates| ==> |s.updates[i]| == |s.mem|
  {
    && s.prev <= s.count
    && (s.reader.Copying? ==>
          && s.prev < s.reader.start <= s.count && s.reader.start % 2 == 0
          && (forall j :: j in s.reader.got ==> j < |s.mem|)
          && (s.count == s.reader.start ==>
                forall j :: j in s.reader.got ==> s.reader.got[j] == s.updates[s.count / 2][j]))
  }

  ghost predicate AcceptedAgrees(s: State, a: Accepted)
    requires |s.updates| == s.count / 2 + 1
  {
    && 0 < a.start <= a.end <= s.count && a.start % 2 == 0
    && (a.end - a.start) % TWO_TO_32 == 0
    && (a.end - a.start < TWO_TO_32 ==> a.values == s.updates[a.start / 2])
  }

  ghost predicate LogsAgree(s: State)
    requires |s.updates| == s.count / 2 + 1
  {
    && (forall i :: 0 <= i < |s.accepted| ==> AcceptedAgrees(s, s.accepted[i]))
    && (forall i :: 0 < i < |s.accepted| ==> s.accepted[i - 1].start < s.accepted[i].start)
    && (s.accepted == [] ==> s.prev == 0)
    && (s.accepted != [] ==> s.prev == s.accepted[|s.accepted| - 1].start)
    && (forall i :: 0 <= i < |s.refused| ==>
          && s.refused[i].prev <= s.refused[i].count <= s.count
          && (s.refused[i].count - s.refused[i].prev) % TWO_TO_32 == 0)
  }

  ghost predicate Inv(s: State) {
    WriterAgrees(s) && ReaderAgrees(s) && LogsAgree(s)
  }

  /** What was accepted stays true as updates are added. */
  lemma AcceptedStays(s: State, s': State)
    requires |s.updates| == s.count / 2 + 1 && |s'.updates| == s'.count / 2 + 1
    requires s.count <= s'.count && s.updates <= s'.updates
    requires forall i :: 0 <= i < |s.accepted| ==> AcceptedAgrees(s, s.accepted[i])
    ensures forall i :: 0 <= i < |s.accepted| ==> AcceptedAgrees(s', s.accepted[i])
  {
    forall i | 0 <= i < |s.accepted|
      ensures AcceptedAgrees(s', s.accepted[i])
    {
      assert AcceptedAgrees(s, s.accepted[i]);
    }
  }

  lemma WriterStepKeepsInv(s: State, a: Action)
    requires Inv(s) && Enabled(s, a) && ByWriter(a)
    ensures Inv(Next(s, a))
  {
    var s' := Next(s, a);
    if a.EndUpdate? {
      assert s.mem == s.writer.values;
    }
    assert WriterAgrees(s');
    AcceptedStays(s, s');
  }

  /** An unchanged counter means an untorn copy, up to a full wrap. */
  lemma CopyIsUntorn(s: State)
    requires Inv(s) && Enabled(s, Recheck) && Shown(s.count) == Shown(s.reader.start)
    ensures AcceptedAgrees(s, Accepted(Copied(|s.mem|, s.reader.got), s.reader.start, s.count))
  {
    if s.count == s.reader.start {
      assert Copied(|s.mem|, s.reader.got) == s.updates[s.count / 2];
    }
  }

  lemma RecheckKeepsInv(s: State)
    requires Inv(s) && Enabled(s, Recheck)
    ensures Inv(Next(s, Recheck))
  {
    var s' := Next(s, Recheck);
    AcceptedStays(s, s');
    if Shown(s.count) == Shown(s.reader.start) {
      CopyIsUntorn(s);
      assert AcceptedAgrees(s', s'.accepted[|s.accepted|]);
    }
    assert WriterAgrees(s') && ReaderAgrees(s');
  }

  lemma ShownParity(count: nat)
    ensures Shown(count) % 2 == count % 2
  {
    var q, y := count / TWO_TO_32, Shown(count);
    assert count == TWO_TO_32 * q + y == 2 * (TWO_TO_31 * q + y / 2) + y % 2;
    ModArith.RemainderOf(TWO_TO_31 * q + y / 2, y % 2, 2);
  }

  lemma ShownNext(count: nat)
    ensures Shown(count + 1) == (Shown(count) + 1) % TWO_TO_32
  {
  }

  lemma SameShownIsWholeLaps(a: nat, b: nat)
    requires a <= b && Shown(a) == Shown(b)
    ensures (b - a) % TWO_TO_32 == 0
  {
  }

  lemma LoadCounterKeepsInv(s: State)
    requires Inv(s) && Enabled(s, LoadCounter)
    ensures Inv(Next(s, LoadCounter))
  {
    var s' := Next(s, LoadCounter);
    AcceptedStays(s, s');
    ShownParity(s.count);
    if Shown(s.count) == Shown(s.prev) {
      SameShownIsWholeLaps(s.prev, s.count);
    }
    assert WriterAgrees(s') && ReaderAgrees(s');
  }

  lemma LoadWordKeepsInv(s: State, j: nat)
    requires Inv(s) && Enabled(s, LoadWord(j))
    ensures Inv(Next(s, LoadWord(j)))
  {
    var s' := Next(s, LoadWord(j));
    AcceptedStays(s, s');
    assert WriterAgrees(s') && LogsAgree(s');
  }

  lemma ReaderStepKeepsInv(s: State, a: Action)
    requires Inv(s) && Enabled(s, a) && !ByWriter(a)
    ensures Inv(Next(s, a))
  {
    match a
    case BeginRead => AcceptedStays(s, Next(s, a));
    case LoadCounter => LoadCounterKeepsInv(s);
    case LoadWord(j) => LoadWordKeepsInv(s, j);
    case Recheck => RecheckKeepsInv(s);
  }

  lemma StepKeepsInv(s: State, a: Action)
    requires Inv(s) && Enabled(s, a)
    ensures Inv(Next(s, a))
  {
    if ByWriter(a) {
      WriterStepKeepsInv(s, a);
    } else {
      ReaderStepKeepsInv(s, a);
    }
  }

  /** The state after an access, if it is possible now. */
  ghost function AfterAccess(s: State, a: Action): State {
    if Enabled(s, a) then Next(s, a) else s
  }

  /** The state after those of the writer's accesses that are possible at their moment. */
  ghost function AfterWriter(s: State, acts: seq<Action>): State {
    if acts == [] then s
    else
      var p, a := AfterWriter(s, acts[..|acts| - 1]), acts[|acts| - 1];
      if ByWriter(a) then AfterAccess(p, a) else p
  }

  /** The state after the first j words have been loaded, the writer acting before each. */
  ghost function AfterLoads(s: State, env: nat -> seq<Action>, j: nat): State {
    if j == 0 then s else AfterAccess(AfterWriter(AfterLoads(s, env, j - 1), env(j - 1)), LoadWord(j - 1))
  }

  /** The state after one turn of the reader's loop: the counter, and if it is even and new all words and the counter again. */
  ghost function AfterTurn(s: State, first: seq<Action>, env: nat -> seq<Action>): State {
    var p := AfterAccess(AfterWriter(s, first), LoadCounter);
    if p.reader.Copying? then AfterAccess(AfterWriter(AfterLoads(p, env, |s.mem|), env(|s.mem|)), Recheck) else p
  }

  // ---------------------------------------------------------------- whole runs

  ghost predicate IsRun(tr: seq<State>, acts: seq<Action>) {
    && |tr| == |acts| + 1
    && forall i :: 0 <= i < |acts| ==> Enabled(tr[i], acts[i]) && tr[i + 1] == Next(tr[i], acts[i])
  }

  lemma {:induction false} RunKeepsInv(tr: seq<State>, acts: seq<Action>, k: nat)
    requires IsRun(tr, acts) && IsInit(tr[0]) && k < |tr|
    ensures Inv(tr[k])
  {
    if k == 0 {
    } else {
      RunKeepsInv(tr, acts, k - 1);
      StepKeepsInv(tr[k - 1], acts[k - 1]);
    }
  }

  /** What an accepted read returns is exactly what one completed update stored. */
  lemma AcceptedReadIsOneUpdate(tr: seq<State>, acts: seq<Action>, i: nat)
    requires IsRun(tr, acts) && IsInit(tr[0])
    requires i < |tr[|acts|].accepted|
    requires var a := tr[|acts|].accepted[i]; a.end - a.start < TWO_TO_32
    ensures var s := tr[|acts|]; var a := s.accepted[i];
      0 < a.start / 2 < |s.updates| && a.values == s.updates[a.start / 2] && a.end == a.start
  {
    RunKeepsInv(tr, acts, |acts|);
    assert AcceptedAgrees(tr[|acts|], tr[|acts|].accepted[i]);
  }

  lemma {:induction false} StartsIncrease(s: State, i: nat, j: nat)
    requires Inv(s) && i < j < |s.accepted|
    ensures s.accepted[i].start < s.accepted[j].start
    decreases j - i
  {
    if i + 1 < j {
      StartsIncrease(s, i, j - 1);
    }
    assert s.accepted[j - 1].start < s.accepted[j].start;
  }

  /** Later accepted reads return strictly later updates, whatever the counter did in between. */
  lemma AcceptedReadsMoveForward(tr: seq<State>, acts: seq<Action>, i: nat, j: nat)
    requires IsRun(tr, acts) && IsInit(tr[0])
    requires i < j < |tr[|acts|].accepted|
    ensures var s := tr[|acts|]; s.accepted[i].start / 2 < s.accepted[j].start / 2
  {
    RunKeepsInv(tr, acts, |acts|);
    var s := tr[|acts|];
    StartsIncrease(s, i, j);
    assert AcceptedAgrees(s, s.accepted[i]) && AcceptedAgrees(s, s.accepted[j]);
  }

  /** The update the last accepted read returned; 0, the cleared memory, before the first. */
  ghost function LastSeen(s: State): nat {
    if s.accepted == [] then 0 else s.accepted[|s.accepted| - 1].start / 2
  }

  /**
   A read that returns false does so between updates, and the newest completed update is the one the last
   accepted read returned exactly if fewer than 2^31 updates have completed since.
   */
  lemma RefusedReadMissesNothing(tr: seq<State>, acts: seq<Action>, i: nat)
    requires IsRun(tr, acts) && IsInit(tr[0])
    requires i < |acts| && acts[i] == LoadCounter && tr[i + 1].refused != tr[i].refused
    ensures var s, newest := tr[i], |tr[i].updates| - 1;
      && s.writer.WriterIdle?
      && LastSeen(s) <= newest
      && (LastSeen(s) == newest <==> newest - LastSeen(s) < TWO_TO_31)
  {
    var s := tr[i];
    RunKeepsInv(tr, acts, i);
    ShownParity(s.count);
    SameShownIsWholeLaps(s.prev, s.count);
    if s.accepted != [] {
      assert AcceptedAgrees(s, s.accepted[|s.accepted| - 1]);
    }
  }

  // ------------------------------------- the bound on updates per read is tight

  lemma RunsCompose(tr1: seq<State>, acts1: seq<Action>, tr2: seq<State>, acts2: seq<Action>)
    requires IsRun(tr1, acts1) && IsRun(tr2, acts2) && tr1[|acts1|] == tr2[0]
    ensures IsRun(tr1 + tr2[1..], acts1 + acts2)
    ensures (tr1 + tr2[1..])[|acts1 + acts2|] == tr2[|acts2|]
  {
    var tr, acts := tr1 + tr2[1..], acts1 + acts2;
    forall i | 0 <= i < |acts|
      ensures Enabled(tr[i], acts[i]) && tr[i + 1] == Next(tr[i], acts[i])
    {
      if i >= |acts1| {
        assert tr[i] == tr2[i - |acts1|] && tr[i + 1] == tr2[i - |acts1| + 1] && acts[i] == acts2[i - |acts1|];
      }
    }
  }

  ghost function Repeated(values: Words, k: nat): (r: seq<Words>)
    ensures |r| == k && forall i :: 0 <= i < k ==> r[i] == values
  {
    seq(k, _ => values)
  }

  ghost function AfterUpdates(s: State, values: Words, k: nat): State {
    s.(mem := if k == 0 then s.mem else values, count := s.count + 2 * k, updates := s.updates + Repeated(values, k))
  }

  lemma OneUpdate(s: State, x: int, y: int) returns (tr: seq<State>, acts: seq<Action>)
    requires s.writer.WriterIdle? && |s.mem| == 2
    ensures IsRun(tr, acts) && tr[0] == s && tr[|acts|] == AfterUpdates(s, [x, y], 1)
  {
    var s1 := Next(s, BeginUpdate([x, y]));
    var s2 := Next(s1, StoreWord(0));
    var s3 := Next(s2, StoreWord(1));
    assert Enabled(s3, EndUpdate);
    var s4 := Next(s3, EndUpdate);
    assert s3.mem == [x, y] && s4 == AfterUpdates(s, [x, y], 1);
    tr, acts := [s, s1, s2, s3, s4], [BeginUpdate([x, y]), StoreWord(0), StoreWord(1), EndUpdate];
  }

  lemma {:induction false} ManyUpdates(s: State, x: int, y: int, k: nat) returns (tr: seq<State>, acts: seq<Action>)
    requires s.writer.WriterIdle? && |s.mem| == 2
    ensures IsRun(tr, acts) && tr[0] == s && tr[|acts|] == AfterUpdates(s, [x, y], k)
  {
    if k == 0 {
      tr, acts := [s], [];
      assert s == AfterUpdates(s, [x, y], 0);
    } else {
      var tr1, acts1 := ManyUpdates(s, x, y, k - 1);
      var mid := tr1[|acts1|];
      var tr2, acts2 := OneUpdate(mid, x, y);
      RunsCompose(tr1, acts1, tr2, acts2);
      tr, acts := tr1 + tr2[1..], acts1 + acts2;
      assert mid.updates + Repeated([x, y], 1) == s.updates + Repeated([x, y], k);
    }
  }

  /** The reader has loaded the first word of update 1 and not yet the second. */
  lemma HalfCopied() returns (tr: seq<State>, acts: seq<Action>)
    ensures IsRun(tr, acts) && IsInit(tr[0])
    ensures tr[|acts|] == State([1, 1], 2, [[0, 0], [1, 1]], WriterIdle, Copying(2, map[0 := 1]), 0, [], [])
  {
    var init := State([0, 0], 0, [[0, 0]], WriterIdle, ReaderIdle, 0, [], []);
    var tr1, acts1 := OneUpdate(init, 1, 1);
    var a := tr1[|acts1|];
    assert a == State([1, 1], 2, [[0, 0], [1, 1]], WriterIdle, ReaderIdle, 0, [], []);
    var a1 := Next(a, BeginRead);
    var a2 := Next(a1, LoadCounter);
    var a3 := Next(a2, LoadWord(0));
    RunsCompose(tr1, acts1, [a, a1, a2, a3], [BeginRead, LoadCounter, LoadWord(0)]);
    tr, acts := tr1 + [a, a1, a2, a3][1..], acts1 + [BeginRead, LoadCounter, LoadWord(0)];
  }

  lemma FinishCopy(b: State) returns (tr: seq<State>, acts: seq<Action>)
    requires b.mem == [2, 2] && b.count == 2 + TWO_TO_32 && b.reader == Copying(2, map[0 := 1]) && b.accepted == []
    requires b.writer.WriterIdle?
    ensures IsRun(tr, acts) && tr[0] == b
    ensures tr[|acts|].updates == b.updates && tr[|acts|].accepted == [Accepted([1, 2], 2, 2 + TWO_TO_32)]
  {
    var b1 := Next(b, LoadWord(1));
    assert Enabled(b1, Recheck);
    var b2 := Next(b1, Recheck);
    assert Copied(2, b1.reader.got) == [1, 2];
    tr, acts := [b, b1, b2], [LoadWord(1), Recheck];
  }

  /** With 2^31 updates between the two loads of a copy, a read is accepted that mixes two updates. */
  lemma TornReadAfterFullWrap() returns (tr: seq<State>, acts: seq<Action>)
    ensures IsRun(tr, acts) && IsInit(tr[0])
    ensures var s := tr[|acts|];
      |s.accepted| == 1 && s.accepted[0].end - s.accepted[0].start == TWO_TO_32 && s.accepted[0].values !in s.updates
  {
    var tr1, acts1 := HalfCopied();
    var tr2, acts2 := ManyUpdates(tr1[|acts1|], 2, 2, TWO_TO_31);
    RunsCompose(tr1, acts1, tr2, acts2);
    var tr3, acts3 := FinishCopy(tr2[|acts2|]);
    RunsCompose(tr1 + tr2[1..], acts1 + acts2, tr3, acts3);
    tr, acts := tr1 + tr2[1..] + tr3[1..], acts1 + acts2 + acts3;
  }

  /** With 2^31 updates before the first read, that read returns false although updates have completed. */
  lemma MissedUpdatesAfterFullWrap() returns (tr: seq<State>, acts: seq<Action>)
    ensures IsRun(tr, acts) && IsInit(tr[0]) && acts != []
    ensures var i := |acts| - 1;
      && acts[i] == LoadCounter && tr[i + 1].refused != tr[i].refused
      && LastSeen(tr[i]) == 0 && |tr[i].updates| - 1 == TWO_TO_31
  {
    var init := State([0, 0], 0, [[0, 0]], WriterIdle, ReaderIdle, 0, [], []);
    var tr1, acts1 := ManyUpdates(init, 1, 1, TWO_TO_31);
    var s := tr1[|acts1|];
    var s1 := Next(s, BeginRead);
    var s2 := Next(s1, LoadCounter);
    RunsCompose(tr1, acts1, [s, s1, s2], [BeginRead, LoadCounter]);
    tr, acts := tr1 + [s, s1, s2][1..], acts1 + [BeginRead, LoadCounter];
    assert tr[|acts| - 1] == s1 && tr[|acts|] == s2;
  }
}
