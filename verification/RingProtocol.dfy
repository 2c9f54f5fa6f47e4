/**
 The packet ring shared by the two processors, one shared-memory access per step.

 One direction of a tunnel has one producer and one consumer.  The producer owns
 the write index and the slot it is filling; the consumer owns the read index.
 Each side loads its own index, then loads the other side's index, which may be
 out of date by the time the result is used.  The size word and the payload bytes
 of a slot may be stored in either order, because the Linux driver stores the size
 last and the bare-metal code stores it first.
 */
module RingProtocol {
  import opened Bytes
  import ModArith

  datatype Slot = Slot(size: nat, data: seq<Byte>)

  /** Where the producer is inside a write call. */
  datatype Producer =
    | ProducerIdle
    | OwnWriteIndexLoaded(buf: Packet, wi: nat)
    | Filling(buf: Packet, wi: nat, next: nat, copied: nat, sized: bool)

  /** Where the consumer is inside a read call. */
  datatype Consumer =
    | ConsumerIdle
    | OwnReadIndexLoaded(len: nat, ri: nat)
    | PacketFound(len: nat, ri: nat)
    | Copying(len: nat, ri: nat, rx: nat, out: Packet)

  datatype Delivery = Delivery(len: nat, bytes: Packet)

  /** Shared memory, both sides' local state, and the history of the run. */
  datatype State = State(
    slots: seq<Slot>,
    w: nat,
    r: nat,
    producer: Producer,
    consumer: Consumer,
    published: seq<Packet>,
    consumed: seq<Delivery>)

  datatype Action =
    | BeginWrite(buf: Packet)
    | CheckSpace
    | StoreByte
    | StoreSize
    | WriteFault
    | Publish
    | BeginRead(len: nat)
    | CheckData
    | LoadSize
    | CopyByte
    | ReadFault
    | Release

  predicate ByProducer(a: Action) {
    a.BeginWrite? || a.CheckSpace? || a.StoreByte? || a.StoreSize? || a.WriteFault? || a.Publish?
  }

  function NextIndex(i: nat, n: nat): nat {
    if i + 1 == n then 0 else i + 1
  }

  predicate Ready(p: Producer, c: Consumer, a: Action) {
    match a
    case BeginWrite(buf) => p.ProducerIdle? && 0 < |buf|
    case CheckSpace => p.OwnWriteIndexLoaded?
    case StoreByte => p.Filling? && p.copied < |p.buf|
    case StoreSize => p.Filling?
    case WriteFault => p.Filling?
    case Publish => p.Filling? && p.copied == |p.buf| && p.sized
    case BeginRead(len) => c.ConsumerIdle?
    case CheckData => c.OwnReadIndexLoaded?
    case LoadSize => c.PacketFound?
    case CopyByte => c.Copying? && |c.out| < c.rx
    case ReadFault => c.Copying?
    case Release => c.Copying? && |c.out| == c.rx
  }

  predicate Enabled(s: State, a: Action) {
    Ready(s.producer, s.consumer, a)
  }

  /** Every index a step uses lies inside the ring; part of the invariant below. */
  ghost predicate InBounds(s: State, capacity: nat) {
    && 0 < |s.slots|
    && s.w < |s.slots| && s.r < |s.slots|
    && (forall i :: 0 <= i < |s.slots| ==> |s.slots[i].data| == capacity)
    && (s.producer.OwnWriteIndexLoaded? ==> |s.producer.buf| <= capacity)
    && (s.producer.Filling? ==>
          && s.producer.wi < |s.slots| && s.producer.next < |s.slots|
          && s.producer.copied <= |s.producer.buf| <= capacity)
    && (s.consumer.PacketFound? ==> s.consumer.ri < |s.slots|)
    && (s.consumer.Copying? ==> s.consumer.ri < |s.slots| && |s.consumer.out| <= s.consumer.rx <= capacity)
  }

  function Next(s: State, a: Action, capacity: nat): State
    requires InBounds(s, capacity) && Enabled(s, a)
  {
    var n := |s.slots|;
    match a
    case BeginWrite(buf) =>
      if |buf| <= capacity then s.(producer := OwnWriteIndexLoaded(buf, s.w)) else s
    case CheckSpace =>
      var next := NextIndex(s.producer.wi, n);
      if next != s.r
      then s.(producer := Filling(s.producer.buf, s.producer.wi, next, 0, false))
      else s.(producer := ProducerIdle)
    case StoreByte =>
      var p := s.producer;
      var slot := s.slots[p.wi];
      s.(slots := s.slots[p.wi := slot.(data := slot.data[p.copied := p.buf[p.copied]])],
         producer := p.(copied := p.copied + 1))
    case StoreSize =>
      var p := s.producer;
      s.(slots := s.slots[p.wi := s.slots[p.wi].(size := |p.buf|)], producer := p.(sized := true))
    case WriteFault => s.(producer := ProducerIdle)
    case Publish =>
      s.(w := s.producer.next, producer := ProducerIdle, published := s.published + [s.producer.buf])
    case BeginRead(len) => s.(consumer := OwnReadIndexLoaded(len, s.r))
    case CheckData =>
      if s.consumer.ri != s.w
      then s.(consumer := PacketFound(s.consumer.len, s.consumer.ri))
      else s.(consumer := ConsumerIdle)
    case LoadSize =>
      var c := s.consumer;
      s.(consumer := Copying(c.len, c.ri, Min(s.slots[c.ri].size, c.len), []))
    case CopyByte =>
      var c := s.consumer;
      s.(consumer := c.(out := c.out + [s.slots[c.ri].data[|c.out|]]))
    case ReadFault => s.(consumer := ConsumerIdle)
    case Release =>
      var c := s.consumer;
      s.(r := NextIndex(c.ri, n), consumer := ConsumerIdle,
         consumed := s.consumed + [Delivery(c.len, c.out)])
  }

  // ---------------------------------------------------------------- invariant

  ghost predicate Holds(slot: Slot, p: Packet) {
    slot.size == |p| && |p| <= |slot.data| && slot.data[..|p|] == p
  }

  /** Both indices are the lengths of the histories, reduced modulo the ring size. */
  ghost predicate IndicesAgree(s: State)
    requires 0 < |s.slots|
  {
    && s.w == |s.published| % |s.slots|
    && s.r == |s.consumed| % |s.slots|
    && |s.consumed| <= |s.published| < |s.consumed| + |s.slots|
  }

  /** The unread packets sit in the slots from the read index up to the write index. */
  ghost predicate SlotsAgree(s: State)
    requires 0 < |s.slots|
  {
    forall i :: |s.consumed| <= i < |s.published| ==> Holds(s.slots[i % |s.slots|], s.published[i])
  }

  ghost predicate ProducerAgrees(s: State)
    requires 0 < |s.slots|
  {
    match s.producer
    case ProducerIdle => true
    case OwnWriteIndexLoaded(buf, wi) => 0 < |buf| && wi == s.w
    case Filling(buf, wi, next, copied, sized) =>
      && 0 < |buf| && wi == s.w < |s.slots| && next == NextIndex(wi, |s.slots|)
      && |s.published| + 1 < |s.consumed| + |s.slots|
      && copied <= |buf| <= |s.slots[wi].data|
      && s.slots[wi].data[..copied] == buf[..copied]
      && (sized ==> s.slots[wi].size == |buf|)
  }

  ghost predicate ConsumerAgrees(s: State) {
    match s.consumer
    case ConsumerIdle => true
    case OwnReadIndexLoaded(len, ri) => ri == s.r
    case PacketFound(len, ri) => ri == s.r && |s.consumed| < |s.published|
    case Copying(len, ri, rx, out) =>
      && ri == s.r && |s.consumed| < |s.published|
      && rx == Min(|s.published[|s.consumed|]|, len)
      && |out| <= rx
      && out == s.published[|s.consumed|][..|out|]
  }

  ghost predicate DeliveriesAgree(s: State) {
    && |s.consumed| <= |s.published|
    && forall i :: 0 <= i < |s.consumed| ==>
         s.consumed[i].bytes == Truncated(s.published[i], s.consumed[i].len)
  }

  ghost predicate Inv(s: State, capacity: nat) {
    && InBounds(s, capacity)
    && IndicesAgree(s)
    && SlotsAgree(s)
    && ProducerAgrees(s)
    && ConsumerAgrees(s)
    && DeliveriesAgree(s)
  }

  // ------------------------------------------------- the bounded FIFO it refines

  /** What a step does to the abstract queue. */
  datatype Event =
    | Silent
    | Enqueued(p: Packet)
    | FoundFull
    | Dequeued(len: nat, bytes: Packet)
    | FoundEmpty

  ghost predicate FifoStep(bound: int, q: seq<Packet>, e: Event, q': seq<Packet>) {
    match e
    case Silent => q' == q
    case Enqueued(p) => |q| < bound && q' == q + [p]
    case FoundFull => |q| == bound && q' == q
    case Dequeued(len, bytes) => q != [] && bytes == Truncated(q[0], len) && q' == q[1..]
    case FoundEmpty => q == [] && q' == q
  }

  /** A whole run of the queue: the contents before and after every event. */
  ghost predicate FifoRun(bound: int, qs: seq<seq<Packet>>, es: seq<Event>) {
    && |qs| == |es| + 1
    && qs[0] == []
    && forall i :: 0 <= i < |es| ==> FifoStep(bound, qs[i], es[i], qs[i + 1])
  }

  /** The published packets that have not been read yet, oldest first. */
  ghost function Queue(s: State): seq<Packet>
    requires |s.consumed| <= |s.published|
  {
    s.published[|s.consumed|..]
  }

  ghost function EventOf(s: State, a: Action): Event
    requires 0 < |s.slots| && Enabled(s, a)
  {
    match a
    case CheckSpace => if NextIndex(s.producer.wi, |s.slots|) == s.r then FoundFull else Silent
    case Publish => Enqueued(s.producer.buf)
    case CheckData => if s.consumer.ri == s.w then FoundEmpty else Silent
    case Release => Dequeued(s.consumer.len, s.consumer.out)
    case _ => Silent
  }

  // ------------------------------------------------------------ step by step

  /** The slot after the last published packet is not one of the unread slots. */
  lemma FreeSlotIsFree(s: State, i: nat)
    requires 0 < |s.slots| && IndicesAgree(s)
    requires |s.consumed| <= i < |s.published|
    ensures i % |s.slots| != s.w
  {
    ModArith.DistinctWithinLap(i, |s.published|, |s.slots|);
  }

  /** Starting a call or giving up on a fault touches nothing that is shared. */
  lemma LocalStepKeepsInv(s: State, a: Action, capacity: nat)
    requires Inv(s, capacity) && Enabled(s, a) && (a.BeginWrite? || a.WriteFault? || a.BeginRead? || a.ReadFault?)
    ensures Inv(Next(s, a, capacity), capacity) && Queue(Next(s, a, capacity)) == Queue(s)
  {
  }

  lemma FillStepKeepsInv(s: State, a: Action, capacity: nat)
    requires Inv(s, capacity) && Enabled(s, a) && (a.StoreByte? || a.StoreSize?)
    ensures Inv(Next(s, a, capacity), capacity)
  {
    var s' := Next(s, a, capacity);
    var n := |s.slots|;
    forall i | |s.consumed| <= i < |s.published|
      ensures Holds(s'.slots[i % n], s.published[i])
    {
      FreeSlotIsFree(s, i);
      assert s'.slots[i % n] == s.slots[i % n];
    }
  }

  lemma CheckSpaceKeepsInv(s: State, capacity: nat)
    requires Inv(s, capacity) && Enabled(s, CheckSpace)
    ensures Inv(Next(s, CheckSpace, capacity), capacity)
    ensures EventOf(s, CheckSpace) == FoundFull ==> |Queue(s)| == |s.slots| - 1
  {
    var n := |s.slots|;
    ModArith.SuccessorIndex(|s.published|, n);
    if NextIndex(s.w, n) == s.r && |s.published| + 1 < |s.consumed| + n {
      ModArith.DistinctWithinLap(|s.consumed|, |s.published| + 1, n);
    }
    if |s.published| + 1 == |s.consumed| + n {
      assert |s.published| + 1 == |s.consumed| + n * 1;
      LapHasSameIndex(|s.consumed|, n);
    }
  }

  lemma LapHasSameIndex(x: nat, n: nat)
    requires 0 < n
    ensures (x + n) % n == x % n
  {
    assert x == n * (x / n) + x % n;
    assert x + n == n * (x / n + 1) + x % n;
    ModArith.RemainderOf(x / n + 1, x % n, n);
  }

  lemma CheckDataKeepsInv(s: State, capacity: nat)
    requires Inv(s, capacity) && Enabled(s, CheckData)
    ensures Inv(Next(s, CheckData, capacity), capacity)
    ensures EventOf(s, CheckData) == FoundEmpty ==> Queue(s) == []
  {
    if s.r == s.w && |s.consumed| < |s.published| {
      ModArith.DistinctWithinLap(|s.consumed|, |s.published|, |s.slots|);
    }
  }

  lemma PublishKeepsInv(s: State, capacity: nat)
    requires Inv(s, capacity) && Enabled(s, Publish)
    ensures Inv(Next(s, Publish, capacity), capacity)
    ensures |Queue(s)| < |s.slots| - 1
    ensures Queue(Next(s, Publish, capacity)) == Queue(s) + [s.producer.buf]
  {
    ModArith.SuccessorIndex(|s.published|, |s.slots|);
    var s' := Next(s, Publish, capacity);
    forall i | |s'.consumed| <= i < |s'.published|
      ensures Holds(s'.slots[i % |s.slots|], s'.published[i])
    {
      if i == |s.published| {
        assert s.slots[s.w].data[..|s.producer.buf|] == s.producer.buf;
      }
    }
  }

  lemma LoadSizeKeepsInv(s: State, capacity: nat)
    requires Inv(s, capacity) && Enabled(s, LoadSize)
    ensures Inv(Next(s, LoadSize, capacity), capacity)
  {
    assert Holds(s.slots[|s.consumed| % |s.slots|], s.published[|s.consumed|]);
  }

  lemma CopyByteKeepsInv(s: State, capacity: nat)
    requires Inv(s, capacity) && Enabled(s, CopyByte)
    ensures Inv(Next(s, CopyByte, capacity), capacity)
  {
    var p := s.published[|s.consumed|];
    assert Holds(s.slots[|s.consumed| % |s.slots|], p);
    var k := |s.consumer.out|;
    assert s.slots[s.r].data[..|p|][k] == p[k];
    assert p[..k] + [p[k]] == p[..k + 1];
  }

  lemma ReleaseKeepsInv(s: State, capacity: nat)
    requires Inv(s, capacity) && Enabled(s, Release)
    ensures Inv(Next(s, Release, capacity), capacity)
    ensures Queue(s) != [] && s.consumer.out == Truncated(Queue(s)[0], s.consumer.len)
    ensures Queue(Next(s, Release, capacity)) == Queue(s)[1..]
  {
    ModArith.SuccessorIndex(|s.consumed|, |s.slots|);
  }

  /** One access of either processor keeps the invariant and is one move of a FIFO with room for N-1 packets. */
  lemma StepRefinesFifo(s: State, a: Action, capacity: nat)
    requires Inv(s, capacity) && Enabled(s, a)
    ensures Inv(Next(s, a, capacity), capacity)
    ensures FifoStep(|s.slots| - 1, Queue(s), EventOf(s, a), Queue(Next(s, a, capacity)))
  {
    match a
    case CheckSpace => CheckSpaceKeepsInv(s, capacity);
    case StoreByte => FillStepKeepsInv(s, a, capacity);
    case StoreSize => FillStepKeepsInv(s, a, capacity);
    case Publish => PublishKeepsInv(s, capacity);
    case CheckData => CheckDataKeepsInv(s, capacity);
    case LoadSize => LoadSizeKeepsInv(s, capacity);
    case CopyByte => CopyByteKeepsInv(s, capacity);
    case Release => ReleaseKeepsInv(s, capacity);
    case _ => LocalStepKeepsInv(s, a, capacity);
  }

  /** The state after an access of one side, if it is that side's and possible now. */
  ghost function AfterAccess(s: State, a: Action, byProducer: bool, capacity: nat): State {
    if ByProducer(a) == byProducer && Enabled(s, a) && InBounds(s, capacity) then Next(s, a, capacity) else s
  }

  /** The state after those of one side's accesses that are possible at their moment. */
  ghost function AfterPeer(s: State, acts: seq<Action>, byProducer: bool, capacity: nat): State {
    if acts == [] then s
    else AfterAccess(AfterPeer(s, acts[..|acts| - 1], byProducer, capacity), acts[|acts| - 1], byProducer, capacity)
  }

  /** How many packets have been published and not read yet. */
  ghost function Backlog(s: State): int {
    |s.published| - |s.consumed|
  }

  lemma {:induction false} AfterPeerKeepsInv(s: State, acts: seq<Action>, byProducer: bool, capacity: nat)
    requires Inv(s, capacity)
    ensures Inv(AfterPeer(s, acts, byProducer, capacity), capacity)
    decreases |acts|
  {
    if acts != [] {
      var k := |acts| - 1;
      AfterPeerKeepsInv(s, acts[..k], byProducer, capacity);
      AccessKeepsInv(AfterPeer(s, acts[..k], byProducer, capacity), acts[k], byProducer, capacity);
    }
  }

  lemma AccessKeepsInv(s: State, a: Action, byProducer: bool, capacity: nat)
    requires Inv(s, capacity)
    ensures Inv(AfterAccess(s, a, byProducer, capacity), capacity)
  {
    if ByProducer(a) == byProducer && Enabled(s, a) {
      StepRefinesFifo(s, a, capacity);
    }
  }

  lemma AfterPeerStep(s: State, acts: seq<Action>, a: Action, byProducer: bool, capacity: nat)
    ensures AfterPeer(s, acts + [a], byProducer, capacity)
         == AfterAccess(AfterPeer(s, acts, byProducer, capacity), a, byProducer, capacity)
  {
    assert (acts + [a])[..|acts|] == acts;
  }

  lemma {:induction false} AfterPeerAppends(s: State, a: seq<Action>, b: seq<Action>, byProducer: bool, capacity: nat)
    ensures AfterPeer(s, a + b, byProducer, capacity)
         == AfterPeer(AfterPeer(s, a, byProducer, capacity), b, byProducer, capacity)
    decreases |b|
  {
    if b == [] {
      assert a + b == a;
    } else {
      var b', x := b[..|b| - 1], b[|b| - 1];
      assert b' + [x] == b && (a + b') + [x] == a + b;
      AfterPeerAppends(s, a, b', byProducer, capacity);
      AfterPeerStep(s, a + b', x, byProducer, capacity);
      AfterPeerStep(AfterPeer(s, a, byProducer, capacity), b', x, byProducer, capacity);
    }
  }

  // ----------------------------------------- neither side disturbs the other

  /** Everything the reader's accesses depend on; a write in progress is not part of it. */
  ghost predicate SameToReader(s: State, t: State) {
    && |s.slots| == |t.slots| && s.w == t.w && s.r == t.r
    && s.consumer == t.consumer && s.published == t.published && s.consumed == t.consumed
  }

  lemma ReaderStepAgrees(s: State, t: State, a: Action, capacity: nat)
    requires Inv(s, capacity) && Inv(t, capacity) && SameToReader(s, t)
    ensures SameToReader(AfterAccess(s, a, false, capacity), AfterAccess(t, a, false, capacity))
  {
    if !ByProducer(a) && Enabled(s, a) && (a.LoadSize? || a.CopyByte?) {
      var n, p := |s.consumed| % |s.slots|, s.published[|s.consumed|];
      assert Holds(s.slots[n], p) && Holds(t.slots[n], p);
      if a.CopyByte? {
        var k := |s.consumer.out|;
        assert s.slots[n].data[..|p|][k] == p[k] && t.slots[n].data[..|p|][k] == p[k];
      }
    }
  }

  /** What the reader does does not depend on a write in progress. */
  lemma {:induction false} ReaderRunAgrees(s: State, t: State, acts: seq<Action>, capacity: nat)
    requires Inv(s, capacity) && Inv(t, capacity) && SameToReader(s, t)
    ensures SameToReader(AfterPeer(s, acts, false, capacity), AfterPeer(t, acts, false, capacity))
    decreases |acts|
  {
    if acts != [] {
      var k := |acts| - 1;
      ReaderRunAgrees(s, t, acts[..k], capacity);
      AfterPeerKeepsInv(s, acts[..k], false, capacity);
      AfterPeerKeepsInv(t, acts[..k], false, capacity);
      ReaderStepAgrees(AfterPeer(s, acts[..k], false, capacity), AfterPeer(t, acts[..k], false, capacity), acts[k], capacity);
    }
  }

  /** Until it publishes, the writer changes nothing the reader's accesses depend on. */
  lemma WriterIsUnseen(s: State, a: Action, capacity: nat)
    requires Inv(s, capacity) && Enabled(s, a) && ByProducer(a) && !a.Publish?
    ensures SameToReader(s, Next(s, a, capacity))
  {
  }

  /** Everything the writer's accesses depend on; a read in progress is not part of it. */
  ghost predicate SameToWriter(s: State, t: State) {
    t == s.(consumer := t.consumer)
  }

  lemma WriterStepAgrees(s: State, t: State, a: Action, capacity: nat)
    requires Inv(s, capacity) && Inv(t, capacity) && SameToWriter(s, t)
    ensures SameToWriter(AfterAccess(s, a, true, capacity), AfterAccess(t, a, true, capacity))
  {
  }

  /** What the writer does does not depend on a read in progress. */
  lemma {:induction false} WriterRunAgrees(s: State, t: State, acts: seq<Action>, capacity: nat)
    requires Inv(s, capacity) && Inv(t, capacity) && SameToWriter(s, t)
    ensures SameToWriter(AfterPeer(s, acts, true, capacity), AfterPeer(t, acts, true, capacity))
    decreases |acts|
  {
    if acts != [] {
      var k := |acts| - 1;
      WriterRunAgrees(s, t, acts[..k], capacity);
      AfterPeerKeepsInv(s, acts[..k], true, capacity);
      AfterPeerKeepsInv(t, acts[..k], true, capacity);
      WriterStepAgrees(AfterPeer(s, acts[..k], true, capacity), AfterPeer(t, acts[..k], true, capacity), acts[k], capacity);
    }
  }

  /** Until it releases the slot, the reader changes nothing the writer's accesses depend on. */
  lemma ReaderIsUnseen(s: State, a: Action, capacity: nat)
    requires Inv(s, capacity) && Enabled(s, a) && !ByProducer(a) && !a.Release?
    ensures SameToWriter(s, Next(s, a, capacity))
  {
  }

  /** The ring looks full to the writer exactly if it holds N-1 packets, and empty to the reader exactly if it holds none. */
  lemma IndicesTell(s: State, capacity: nat)
    requires Inv(s, capacity)
    ensures Backlog(s) == |Queue(s)| <= |s.slots| - 1
    ensures NextIndex(s.w, |s.slots|) == s.r <==> Backlog(s) == |s.slots| - 1
    ensures s.r == s.w <==> Backlog(s) == 0
  {
    var n, p, c := |s.slots|, |s.published|, |s.consumed|;
    ModArith.SuccessorIndex(p, n);
    if p + 1 < c + n {
      ModArith.DistinctWithinLap(c, p + 1, n);
    } else {
      LapHasSameIndex(c, n);
    }
    if c < p {
      ModArith.DistinctWithinLap(c, p, n);
    }
  }

  // ---------------------------------------------------------------- whole runs

  /** `tr` is a run: each state follows from the one before it by the action listed. */
  ghost predicate IsRun(tr: seq<State>, acts: seq<Action>, capacity: nat) {
    && |tr| == |acts| + 1
    && forall i :: 0 <= i < |acts| ==>
         InBounds(tr[i], capacity) && Enabled(tr[i], acts[i]) && tr[i + 1] == Next(tr[i], acts[i], capacity)
  }

  ghost predicate IsInit(s: State, capacity: nat) {
    && InBounds(s, capacity)
    && s == State(s.slots, 0, 0, ProducerIdle, ConsumerIdle, [], [])
  }

  ghost function Events(tr: seq<State>, acts: seq<Action>, capacity: nat): (es: seq<Event>)
    requires IsRun(tr, acts, capacity)
    ensures |es| == |acts|
  {
    seq(|acts|, i requires 0 <= i < |acts| => EventOf(tr[i], acts[i]))
  }

  lemma InitHoldsInv(s: State, capacity: nat)
    requires IsInit(s, capacity)
    ensures Inv(s, capacity)
  {
  }

  lemma {:induction false} RunKeepsInv(tr: seq<State>, acts: seq<Action>, capacity: nat, k: nat)
    requires IsRun(tr, acts, capacity) && IsInit(tr[0], capacity) && k < |tr|
    ensures Inv(tr[k], capacity) && |tr[k].slots| == |tr[0].slots|
  {
    if k == 0 {
    } else {
      RunKeepsInv(tr, acts, capacity, k - 1);
      StepRefinesFifo(tr[k - 1], acts[k - 1], capacity);
    }
  }

  ghost function Queues(tr: seq<State>): seq<seq<Packet>>
    requires forall i :: 0 <= i < |tr| ==> |tr[i].consumed| <= |tr[i].published|
  {
    seq(|tr|, i requires 0 <= i < |tr| => Queue(tr[i]))
  }

  /** Every interleaving of the two sides' accesses is a run of a FIFO with room for N-1 packets. */
  lemma RunRefinesFifo(tr: seq<State>, acts: seq<Action>, capacity: nat)
    requires IsRun(tr, acts, capacity) && IsInit(tr[0], capacity)
    ensures forall i :: 0 <= i < |tr| ==> |tr[i].consumed| <= |tr[i].published|
    ensures FifoRun(|tr[0].slots| - 1, Queues(tr), Events(tr, acts, capacity))
  {
    forall i | 0 <= i < |tr|
      ensures Inv(tr[i], capacity) && |tr[i].slots| == |tr[0].slots|
    {
      RunKeepsInv(tr, acts, capacity, i);
    }
    forall i | 0 <= i < |acts|
      ensures FifoStep(|tr[0].slots| - 1, Queue(tr[i]), EventOf(tr[i], acts[i]), Queue(tr[i + 1]))
    {
      StepRefinesFifo(tr[i], acts[i], capacity);
    }
  }

  /** What the consumer got is a prefix of what was published, cut to each reader's buffer; unread packets sit in their slots. */
  lemma ConsumedIsPrefixOfPublished(tr: seq<State>, acts: seq<Action>, capacity: nat)
    requires IsRun(tr, acts, capacity) && IsInit(tr[0], capacity)
    ensures var s := tr[|acts|];
      && 0 < |s.slots|
      && |s.consumed| <= |s.published| <= |s.consumed| + |s.slots| - 1
      && (forall i :: 0 <= i < |s.consumed| ==>
            s.consumed[i].bytes == Truncated(s.published[i], s.consumed[i].len))
      && (forall i :: 0 <= i < |s.published| - |s.consumed| ==>
            Holds(s.slots[(|s.consumed| + i) % |s.slots|], Queue(s)[i]))
      && s.r == |s.consumed| % |s.slots| && s.w == |s.published| % |s.slots|
  {
    RunKeepsInv(tr, acts, capacity, |acts|);
  }

  /** The slot being filled is neither an unread slot nor the slot being copied out. */
  lemma FilledSlotIsPrivate(tr: seq<State>, acts: seq<Action>, capacity: nat)
    requires IsRun(tr, acts, capacity) && IsInit(tr[0], capacity)
    ensures var s := tr[|acts|]; 0 < |s.slots| && (s.producer.Filling? ==>
      && (forall i :: |s.consumed| <= i < |s.published| ==> i % |s.slots| != s.producer.wi)
      && (s.consumer.PacketFound? || s.consumer.Copying? ==> s.consumer.ri != s.producer.wi))
  {
    var s := tr[|acts|];
    RunKeepsInv(tr, acts, capacity, |acts|);
    forall i | |s.consumed| <= i < |s.published|
      ensures i % |s.slots| != s.w
    {
      FreeSlotIsFree(s, i);
    }
  }
}
