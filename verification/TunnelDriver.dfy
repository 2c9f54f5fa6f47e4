/**
 One direction of a tunnel as both processors run it: a flat, mapped byte buffer,
 two shared indices, and the read and write calls that access them.  The other
 processor runs between any two accesses; what it does there is a parameter of
 each call.
 */
module TunnelDriver {
  import opened Bytes
  import opened SlotGeometry
  import opened RingProtocol

  const EINTR := 4
  const EAGAIN := 11
  const EFAULT := 14
  const EFBIG := 27

  // ------------------------------------------------ slots inside flat memory

  /** The little-endian size word in the first four bytes of a slot. */
  function SizeWord(b0: Byte, b1: Byte, b2: Byte, b3: Byte): nat {
    b0 + 0x100 * b1 + 0x1_0000 * b2 + 0x100_0000 * b3
  }

  ghost function SlotAt(mem: seq<Byte>, stride: nat, max: nat, i: nat): Slot
    requires Offset(stride, i) + HEADER_SIZE + max <= |mem|
  {
    var o := Offset(stride, i);
    Slot(SizeWord(mem[o], mem[o + 1], mem[o + 2], mem[o + 3]),
         mem[o + HEADER_SIZE..o + HEADER_SIZE + max])
  }

  ghost predicate Layout(mem: seq<Byte>, stride: nat, max: nat, count: nat) {
    && HEADER_SIZE + max <= stride
    && forall i :: 0 <= i < count ==> Offset(stride, i) + stride <= |mem|
  }

  ghost function Slots(mem: seq<Byte>, stride: nat, max: nat, count: nat): (slots: seq<Slot>)
    requires Layout(mem, stride, max, count)
    ensures |slots| == count
    ensures forall i :: 0 <= i < count ==> |slots[i].data| == max
  {
    seq(count, i requires 0 <= i < count => SlotAt(mem, stride, max, i))
  }

  /** Memory that differs only inside slot i decodes to the same other slots. */
  lemma OtherSlotsKeep(mem: seq<Byte>, mem': seq<Byte>, stride: nat, max: nat, count: nat, i: nat)
    requires Layout(mem, stride, max, count) && |mem'| == |mem| && i < count
    requires forall x :: 0 <= x < |mem| && !(Offset(stride, i) <= x < Offset(stride, i) + stride) ==> mem'[x] == mem[x]
    ensures forall j :: 0 <= j < count && j != i ==>
      Slots(mem', stride, max, count)[j] == Slots(mem, stride, max, count)[j]
  {
    forall j | 0 <= j < count && j != i
      ensures Slots(mem', stride, max, count)[j] == Slots(mem, stride, max, count)[j]
    {
      if j < i {
        SlotsAreDisjoint(stride, j, i);
      } else {
        SlotsAreDisjoint(stride, i, j);
      }
      var o := Offset(stride, j);
      assert mem'[o + HEADER_SIZE..o + HEADER_SIZE + max] == mem[o + HEADER_SIZE..o + HEADER_SIZE + max];
    }
  }

  lemma StoredByteDecodes(mem: seq<Byte>, stride: nat, max: nat, count: nat, i: nat, k: nat, b: Byte)
    requires Layout(mem, stride, max, count) && i < count && k < max
    ensures Offset(stride, i) + stride <= |mem|
    ensures var slots := Slots(mem, stride, max, count);
      Slots(mem[Offset(stride, i) + HEADER_SIZE + k := b], stride, max, count)
      == slots[i := slots[i].(data := slots[i].data[k := b])]
  {
    var o := Offset(stride, i);
    var mem' := mem[o + HEADER_SIZE + k := b];
    OtherSlotsKeep(mem, mem', stride, max, count, i);
    assert mem'[o + HEADER_SIZE..o + HEADER_SIZE + max] == mem[o + HEADER_SIZE..o + HEADER_SIZE + max][k := b];
  }

  lemma StoredSizeDecodes(mem: seq<Byte>, stride: nat, max: nat, count: nat, i: nat, b0: Byte, b1: Byte, b2: Byte, b3: Byte)
    requires Layout(mem, stride, max, count) && i < count
    ensures Offset(stride, i) + stride <= |mem|
    ensures var o := Offset(stride, i); var slots := Slots(mem, stride, max, count);
      Slots(mem[o := b0][o + 1 := b1][o + 2 := b2][o + 3 := b3], stride, max, count)
      == slots[i := slots[i].(size := SizeWord(b0, b1, b2, b3))]
  {
    var o := Offset(stride, i);
    var mem' := mem[o := b0][o + 1 := b1][o + 2 := b2][o + 3 := b3];
    OtherSlotsKeep(mem, mem', stride, max, count, i);
    assert mem'[o + HEADER_SIZE..o + HEADER_SIZE + max] == mem[o + HEADER_SIZE..o + HEADER_SIZE + max];
  }

  lemma LoadedByteDecodes(mem: seq<Byte>, stride: nat, max: nat, count: nat, i: nat, k: nat)
    requires Layout(mem, stride, max, count) && i < count && k < max
    ensures Offset(stride, i) + stride <= |mem|
    ensures Slots(mem, stride, max, count)[i].data[k] == mem[Offset(stride, i) + HEADER_SIZE + k]
  {
  }

  /** The size word is a little-endian 32-bit number. */
  lemma SizeWordIsLittleEndian(x: nat)
    requires x < 0x1_0000_0000
    ensures SizeWord(x % 256, x / 256 % 256, x / 256 / 256 % 256, x / 256 / 256 / 256) == x
  {
    var a := x / 256;
    var b := a / 256;
    assert x == 256 * a + x % 256 && a == 256 * b + a % 256 && b == 256 * (b / 256) + b % 256;
  }

  lemma SizeWordOfShortLength(n: nat)
    requires n < TWO_TO_16
    ensures SizeWord(n % 0x100, n / 0x100, 0, 0) == n
  {
  }

  // ------------------------------------------------ the accesses of each call

  /** The log t, then k times: what the other processor does at the next point, and the access a. */
  ghost function Repeated(t: seq<Action>, a: Action, env: nat -> seq<Action>, at: nat, k: nat): seq<Action> {
    if k == 0 then t else Repeated(t, a, env, at, k - 1) + env(at + k - 1) + [a]
  }

  ghost function SpaceScript(t: seq<Action>, buf: Packet, env: nat -> seq<Action>): seq<Action> {
    t + env(0) + [BeginWrite(buf)] + env(1) + [CheckSpace]
  }

  /** The driver fills the slot bytes first, size last, and then publishes; a fault ends it. */
  ghost function FillScript(t: seq<Action>, buf: Packet, fault: Fault, env: nat -> seq<Action>): seq<Action> {
    if fault.Hits(|buf|) then Repeated(t, StoreByte, env, 2, fault.bytes) + [WriteFault]
    else Repeated(t, StoreByte, env, 2, |buf|) + env(|buf| + 2) + [StoreSize] + env(|buf| + 3) + [Publish]
  }

  /** The bare-metal code stores the size first. */
  ghost function SizeFirstScript(t: seq<Action>, env: nat -> seq<Action>, n: nat): seq<Action> {
    Repeated(t + env(2) + [StoreSize], StoreByte, env, 3, n) + env(n + 3) + [Publish]
  }

  ghost function CheckScript(t: seq<Action>, len: nat, env: nat -> seq<Action>): seq<Action> {
    t + env(0) + [BeginRead(len)] + env(1) + [CheckData]
  }

  ghost function ChecksScript(t: seq<Action>, len: nat, env: nat -> nat -> seq<Action>, n: nat): seq<Action> {
    if n == 0 then t else CheckScript(ChecksScript(t, len, env, n - 1), len, env(n - 1))
  }

  /** The size and n bytes; the points of the other processor start at `at`. */
  ghost function CopyScript(t: seq<Action>, env: nat -> seq<Action>, at: nat, n: nat): seq<Action> {
    Repeated(t + env(at) + [LoadSize], CopyByte, env, at + 1, n)
  }

  // --------------------------------------------------------------- the tunnel

  /** Where a call aborts on a bad user buffer: never, or after copying some bytes. */
  datatype Fault = NoFault | FaultAfter(bytes: nat) {
    predicate Hits(len: nat) {
      FaultAfter? && bytes < len
    }
  }

  /** On the six configured tunnels at most three packets wait in the larger rings and one in the others. */
  lemma ConfiguredBacklog(tr: seq<State>, acts: seq<Action>, i: nat)
    requires i < |TUNNELS| && IsRun(tr, acts, TUNNELS[i].max) && IsInit(tr[0], TUNNELS[i].max)
    requires |tr[0].slots| == TUNNELS[i].count
    ensures var s := tr[|acts|]; 0 <= |s.published| - |s.consumed| <= if i == 1 || i == 4 then 3 else 1
  {
    ConsumedIsPrefixOfPublished(tr, acts, TUNNELS[i].max);
    RunKeepsInv(tr, acts, TUNNELS[i].max, |acts|);
  }

  class Tunnel {
    const max: nat
    const count: nat
    const stride: nat
    const buffer: array<Byte>
    var w: nat
    var r: nat
    var producer: Producer
    var consumer: Consumer
    ghost var published: seq<Packet>
    ghost var consumed: seq<Delivery>
    ghost var checks: nat
    ghost var trace: seq<Action>

    ghost predicate LaidOut()
      reads this, buffer
    {
      max <= LARGEST_EXACT_PACKET && 0 < count && Layout(buffer[..], stride, max, count)
    }

    /** The object as a state of the step-by-step protocol. */
    ghost function Model(): State
      requires LaidOut()
      reads this, buffer
    {
      State(Slots(buffer[..], stride, max, count), w, r, producer, consumer, published, consumed)
    }

    ghost predicate Valid()
      reads this, buffer
    {
      LaidOut() && Inv(Model(), max)
    }

    ghost function Unread(): seq<Packet>
      requires Valid()
      reads this, buffer
    {
      Queue(Model())
    }

    /** Both indices start equal; old bytes in the buffer do not matter. */
    constructor (max: nat, count: nat)
      requires max <= LARGEST_EXACT_PACKET && 0 < count
      ensures Valid() && fresh(buffer) && this.max == max && this.count == count && stride == SlotSize(max)
      ensures buffer.Length == stride * count
      ensures published == [] && consumed == [] && producer.ProducerIdle? && consumer.ConsumerIdle?
    {
      this.max := max;
      this.count := count;
      this.stride := SlotSize(max);
      this.buffer := new Byte[SlotSize(max) * count];
      w, r := 0, 0;
      producer, consumer := ProducerIdle, ConsumerIdle;
      published, consumed := [], [];
      new;
      SlotSizeIsLeastFit(max);
      forall i | 0 <= i < count
        ensures Offset(stride, i) + stride <= buffer.Length
      {
        SlotIsInsideBuffer(stride, i, count);
      }
      InitHoldsInv(Model(), max);
    }

    method PutByte(i: nat, k: nat, b: Byte)
      requires LaidOut() && i < count && k < max
      modifies buffer
      ensures LaidOut()
      ensures Slots(buffer[..], stride, max, count)
           == var slots := old(Slots(buffer[..], stride, max, count));
              slots[i := slots[i].(data := slots[i].data[k := b])]
    {
      ghost var mem := buffer[..];
      StoredByteDecodes(mem, stride, max, count, i, k, b);
      buffer[Offset(stride, i) + HEADER_SIZE + k] := b;
      assert buffer[..] == mem[Offset(stride, i) + HEADER_SIZE + k := b];
    }

    method PutSize(i: nat, size: nat)
      requires LaidOut() && i < count && size <= max
      modifies buffer
      ensures LaidOut()
      ensures Slots(buffer[..], stride, max, count)
           == var slots := old(Slots(buffer[..], stride, max, count)); slots[i := slots[i].(size := size)]
    {
      ghost var mem: seq<Byte> := buffer[..];
      var o := Offset(stride, i);
      var low: Byte := size % 0x100;
      var high: Byte := size / 0x100;
      var zero: Byte := 0;
      StoredSizeDecodes(mem, stride, max, count, i, low, high, zero, zero);
      SizeWordOfShortLength(size);
      buffer[o] := low;
      buffer[o + 1] := high;
      buffer[o + 2] := zero;
      buffer[o + 3] := zero;
      assert buffer[..] == mem[o := low][o + 1 := high][o + 2 := zero][o + 3 := zero];
    }

    method GetSize(i: nat) returns (size: nat)
      requires LaidOut() && i < count
      ensures size == Slots(buffer[..], stride, max, count)[i].size
    {
      var o := Offset(stride, i);
      size := SizeWord(buffer[o], buffer[o + 1], buffer[o + 2], buffer[o + 3]);
    }

    method GetByte(i: nat, k: nat) returns (b: Byte)
      requires LaidOut() && i < count && k < max
      ensures b == Slots(buffer[..], stride, max, count)[i].data[k]
    {
      LoadedByteDecodes(buffer[..], stride, max, count, i, k);
      b := buffer[Offset(stride, i) + HEADER_SIZE + k];
    }

    /** The producer's stores into the slot it owns. */
    method Fill(a: Action)
      requires Valid() && Enabled(Model(), a) && (a.StoreByte? || a.StoreSize?)
      modifies this`producer, buffer
      ensures LaidOut() && Model() == Next(old(Model()), a, max)
    {
      if a.StoreByte? {
        PutByte(producer.wi, producer.copied, producer.buf[producer.copied]);
        producer := producer.(copied := producer.copied + 1);
      } else {
        PutSize(producer.wi, |producer.buf|);
        producer := producer.(sized := true);
      }
    }

    /** The producer's index accesses. */
    method ProducerIndex(a: Action)
      requires Valid() && Enabled(Model(), a) && ByProducer(a) && !a.StoreByte? && !a.StoreSize?
      modifies this`producer, this`w, this`published
      ensures LaidOut() && Model() == Next(old(Model()), a, max)
    {
      match a
      case BeginWrite(buf) =>
        if |buf| <= max {
          producer := OwnWriteIndexLoaded(buf, w);
        }
      case CheckSpace =>
        var next := NextIndex(producer.wi, count);
        producer := if next != r then Filling(producer.buf, producer.wi, next, 0, false) else ProducerIdle;
      case WriteFault =>
        producer := ProducerIdle;
      case Publish =>
        w := producer.next;
        published := published + [producer.buf];
        producer := ProducerIdle;
    }

    method ConsumerAccess(a: Action)
      requires Valid() && Enabled(Model(), a) && !ByProducer(a)
      modifies this`consumer, this`r, this`consumed
      ensures LaidOut() && Model() == Next(old(Model()), a, max)
    {
      match a
      case BeginRead(len) =>
        consumer := OwnReadIndexLoaded(len, r);
      case CheckData =>
        consumer := if consumer.ri != w then PacketFound(consumer.len, consumer.ri) else ConsumerIdle;
      case LoadSize =>
        var size := GetSize(consumer.ri);
        consumer := Copying(consumer.len, consumer.ri, Min(size, consumer.len), []);
      case CopyByte =>
        var b := GetByte(consumer.ri, |consumer.out|);
        consumer := consumer.(out := consumer.out + [b]);
      case ReadFault =>
        consumer := ConsumerIdle;
      case Release =>
        r := NextIndex(consumer.ri, count);
        consumed := consumed + [Delivery(consumer.len, consumer.out)];
        consumer := ConsumerIdle;
    }

    /** One shared-memory access on the flat buffer is one step of the protocol. */
    method Access(a: Action)
      requires Valid() && Enabled(Model(), a)
      modifies this, buffer
      ensures Valid() && checks == old(checks) && trace == old(trace)
      ensures Model() == Next(old(Model()), a, max)
    {
      StepRefinesFifo(Model(), a, max);
      if a.StoreByte? || a.StoreSize? {
        Fill(a);
      } else if ByProducer(a) {
        ProducerIndex(a);
      } else {
        ConsumerAccess(a);
      }
    }

    /** An access of the other processor, unless it is not one of its own or not possible now. */
    method PeerAccess(a: Action, byProducer: bool)
      requires Valid()
      modifies this, buffer
      ensures Valid() && checks == old(checks) && trace == old(trace) && Model() == AfterAccess(old(Model()), a, byProducer, max)
      ensures !byProducer ==> producer == old(producer) && published == old(published) && old(consumed) <= consumed
      ensures byProducer ==> consumer == old(consumer) && consumed == old(consumed) && old(published) <= published
    {
      if ByProducer(a) == byProducer && Ready(producer, consumer, a) {
        Access(a);
      }
    }

    /** The other processor's accesses, in any number. */
    method PeerRuns(acts: seq<Action>, byProducer: bool)
      requires Valid()
      modifies this, buffer
      ensures Valid() && checks == old(checks) && trace == old(trace) + acts
      ensures Model() == AfterPeer(old(Model()), acts, byProducer, max)
      ensures !byProducer ==> producer == old(producer) && published == old(published) && old(consumed) <= consumed
      ensures byProducer ==> consumer == old(consumer) && consumed == old(consumed) && old(published) <= published
    {
      for i := 0 to |acts|
        invariant Valid() && checks == old(checks) && trace == old(trace)
        invariant Model() == AfterPeer(old(Model()), acts[..i], byProducer, max)
        invariant !byProducer ==> producer == old(producer) && published == old(published) && old(consumed) <= consumed
        invariant byProducer ==> consumer == old(consumer) && consumed == old(consumed) && old(published) <= published
      {
        assert acts[..i + 1][..i] == acts[..i];
        PeerAccess(acts[i], byProducer);
      }
      assert acts[..|acts|] == acts;
      trace := trace + acts;
    }

    /** An access of the processor whose call this is. */
    method Own(a: Action)
      requires Valid() && Enabled(Model(), a)
      modifies this, buffer
      ensures Valid() && checks == old(checks) && trace == old(trace) + [a]
      ensures Model() == Next(old(Model()), a, max)
    {
      Access(a);
      trace := trace + [a];
    }

    // -------------------------------------------------------------- writing

    /** Loads the own index, then the peer's, and compares: the slot is free exactly if the ring then holds fewer than N-1 packets. */
    method TryGetWritePacket(buf: Packet, env: nat -> seq<Action>) returns (ok: bool)
      requires Valid() && producer.ProducerIdle? && 0 < |buf| <= max
      modifies this, buffer
      ensures Valid() && published == old(published) && old(consumed) <= consumed
      ensures ok <==> old(HasRoom(env))
      ensures trace == SpaceScript(old(trace), buf, env)
      ensures ok ==> producer == Filling(buf, w, NextIndex(w, count), 0, false)
      ensures !ok ==> producer.ProducerIdle? && |old(Unread())| == count - 1
    {
      BeginWriting(buf, env);
      IndicesTell(Model(), max);
      Own(CheckSpace);
      ok := producer.Filling?;
    }

    /** By the comparison with the reader's index, the ring holds fewer than N-1 packets. */
    ghost predicate HasRoom(env: nat -> seq<Action>)
      requires LaidOut()
      reads this, buffer
    {
      Backlog(AfterPeer(Model(), env(0) + env(1), false, max)) < count - 1
    }

    /** Up to the comparison: the reader is where its own accesses alone would have brought it. */
    method BeginWriting(buf: Packet, env: nat -> seq<Action>)
      requires Valid() && producer.ProducerIdle? && 0 < |buf| <= max
      modifies this, buffer
      ensures Valid() && producer == OwnWriteIndexLoaded(buf, w) && published == old(published) && old(consumed) <= consumed
      ensures Backlog(Model()) == Backlog(AfterPeer(old(Model()), env(0) + env(1), false, max))
      ensures trace == old(trace) + env(0) + [BeginWrite(buf)] + env(1)
    {
      ghost var s0 := Model();
      PeerRuns(env(0), false);
      ghost var s1 := Model();
      WriterIsUnseen(s1, BeginWrite(buf), max);
      Own(BeginWrite(buf));
      ReaderRunAgrees(s1, Model(), env(1), max);
      PeerRuns(env(1), false);
      AfterPeerAppends(s0, env(0), env(1), false, max);
    }

    /** Stores the next payload byte, after whatever the reader does first. */
    method StoreNextByte(acts: seq<Action>)
      requires Valid() && producer.Filling? && producer.copied < |producer.buf|
      modifies this, buffer
      ensures Valid() && published == old(published) && old(consumed) <= consumed
      ensures producer == old(producer).(copied := old(producer).copied + 1)
      ensures trace == old(trace) + acts + [StoreByte]
    {
      PeerRuns(acts, false);
      Own(StoreByte);
    }

    /** The write that began as p has stored its first k bytes. */
    ghost predicate HasStored(p: Producer, k: nat)
      reads this
    {
      p.Filling? && k <= |p.buf| && producer == p.(copied := k)
    }

    method StoreByteNumber(k: nat, ghost p: Producer, acts: seq<Action>)
      requires Valid() && HasStored(p, k) && k < |p.buf|
      modifies this, buffer
      ensures Valid() && published == old(published) && old(consumed) <= consumed
      ensures HasStored(p, k + 1) && trace == old(trace) + acts + [StoreByte]
    {
      StoreNextByte(acts);
    }

    /** Stores the first n payload bytes, the reader acting before each. */
    method StoreBytes(n: nat, env: nat -> seq<Action>, at: nat)
      requires Valid() && producer.Filling? && producer.copied == 0 && n <= |producer.buf|
      modifies this, buffer
      ensures Valid() && published == old(published) && old(consumed) <= consumed
      ensures producer == old(producer).(copied := n) && trace == Repeated(old(trace), StoreByte, env, at, n)
    {
      ghost var p := producer;
      for k := 0 to n
        invariant Valid() && published == old(published) && old(consumed) <= consumed
        invariant HasStored(p, k) && trace == Repeated(old(trace), StoreByte, env, at, k)
      {
        StoreByteNumber(k, p, env(at + k));
      }
    }

    /** Copies the payload, the reader acting before every byte, or stops at the byte where the user buffer faults. */
    method CopyFromUser(fault: Fault, env: nat -> seq<Action>, at: nat) returns (ok: bool)
      requires Valid() && producer.Filling? && producer.copied == 0
      modifies this, buffer
      ensures Valid() && published == old(published) && old(consumed) <= consumed
      ensures ok <==> !fault.Hits(|old(producer).buf|)
      ensures ok ==> producer == old(producer).(copied := |old(producer).buf|)
      ensures !ok ==> producer.ProducerIdle?
      ensures trace == if ok then Repeated(old(trace), StoreByte, env, at, |old(producer).buf|)
                       else Repeated(old(trace), StoreByte, env, at, fault.bytes) + [WriteFault]
    {
      ok := !fault.Hits(|producer.buf|);
      StoreBytes(if ok then |producer.buf| else fault.bytes, env, at);
      if !ok {
        Own(WriteFault);
      }
    }

    /** Moves the write index, after whatever the reader does first. */
    method PublishPacket(acts: seq<Action>)
      requires Valid() && producer.Filling? && producer.copied == |producer.buf| && producer.sized
      modifies this, buffer
      ensures Valid() && producer.ProducerIdle? && old(consumed) <= consumed
      ensures published == old(published) + [old(producer).buf] && trace == old(trace) + acts + [Publish]
    {
      PeerRuns(acts, false);
      Own(Publish);
    }

    /** Stores the size word, after whatever the reader does first. */
    method StoreSizeWord(acts: seq<Action>)
      requires Valid() && producer.Filling?
      modifies this, buffer
      ensures Valid() && published == old(published) && old(consumed) <= consumed
      ensures producer == old(producer).(sized := true) && trace == old(trace) + acts + [StoreSize]
    {
      PeerRuns(acts, false);
      Own(StoreSize);
    }

    /** The driver's write call, with the bare-metal side reading at any moment; the script lists every access in order. */
    method DevWrite(buf: Packet, fault: Fault, env: nat -> seq<Action>) returns (ret: int)
      requires Valid() && producer.ProducerIdle?
      modifies this, buffer
      ensures Valid() && producer.ProducerIdle? && old(consumed) <= consumed
      ensures ret == -27 <==> |buf| > max
      ensures ret > 0 ==> ret == |buf| && published == old(published) + [buf]
      ensures ret <= 0 ==> published == old(published)
      ensures 0 < |buf| <= max && ret == 0 ==> |old(Unread())| == count - 1
      ensures 0 < |buf| <= max ==>
        var room := old(HasRoom(env));
        && ret == (if !room then 0 else if fault.Hits(|buf|) then -14 else |buf|)
        && var t := SpaceScript(old(trace), buf, env);
           trace == if room then FillScript(t, buf, fault, env) else t
      ensures buf == [] ==> ret == 0
      ensures |buf| == 0 || |buf| > max ==> Model() == old(Model())
    {
      if |buf| == 0 {
        return 0;
      }
      if |buf| > max {
        return -EFBIG;
      }
      var free := TryGetWritePacket(buf, env);
      if !free {
        return 0;
      }
      var copied := CopyFromUser(fault, env, 2);
      if !copied {
        return -EFAULT;
      }
      StoreSizeWord(env(|buf| + 2));
      PublishPacket(env(|buf| + 3));
      ret := |buf|;
    }

    /** A send of the Linux program: it succeeds exactly if the write call takes the packet. */
    method Send(buf: Packet, env: nat -> seq<Action>) returns (sent: bool)
      requires Valid() && producer.ProducerIdle? && 0 < |buf| <= max
      modifies this, buffer
      ensures Valid() && producer.ProducerIdle? && old(consumed) <= consumed
      ensures published == if sent then old(published) + [buf] else old(published)
      ensures !sent ==> |old(Unread())| == count - 1
      ensures sent <==> old(HasRoom(env))
    {
      var ret := DevWrite(buf, NoFault, env);
      sent := ret > 0;
    }

    /** The bare-metal stores into the slot: the size word first, then the payload. */
    method FillSizeFirst(env: nat -> seq<Action>, at: nat)
      requires Valid() && producer.Filling? && producer.copied == 0
      modifies this, buffer
      ensures Valid() && published == old(published) && old(consumed) <= consumed
      ensures producer == old(producer).(copied := |old(producer).buf|, sized := true)
      ensures trace == Repeated(old(trace) + env(at) + [StoreSize], StoreByte, env, at + 1, |old(producer).buf|)
    {
      StoreSizeWord(env(at));
      var ok := CopyFromUser(NoFault, env, at + 1);
    }

    method FillAndPublish(env: nat -> seq<Action>)
      requires Valid() && producer.Filling? && producer.copied == 0
      modifies this, buffer
      ensures Valid() && producer.ProducerIdle? && old(consumed) <= consumed
      ensures published == old(published) + [old(producer).buf]
      ensures trace == SizeFirstScript(old(trace), env, |old(producer).buf|)
    {
      var n := |producer.buf|;
      FillSizeFirst(env, 2);
      PublishPacket(env(n + 3));
    }

    /** The bare-metal write call: same ring, size word stored first, no user copy to fail. */
    method IpcTunnelWrite(buf: Packet, env: nat -> seq<Action>) returns (sent: bool)
      requires Valid() && producer.ProducerIdle?
      modifies this, buffer
      ensures Valid() && producer.ProducerIdle? && old(consumed) <= consumed
      ensures published == if sent then old(published) + [buf] else old(published)
      ensures sent ==> 0 < |buf| <= max
      ensures 0 < |buf| <= max && !sent ==> |old(Unread())| == count - 1
      ensures 0 < |buf| <= max ==>
        && (sent <==> old(HasRoom(env)))
        && var t := SpaceScript(old(trace), buf, env);
           trace == if sent then SizeFirstScript(t, env, |buf|) else t
      ensures |buf| == 0 || |buf| > max ==> Model() == old(Model())
    {
      if |buf| == 0 || |buf| > max {
        return false;
      }
      sent := TryGetWritePacket(buf, env);
      if sent {
        FillAndPublish(env);
      }
    }

    // -------------------------------------------------------------- reading

    /** Up to the comparison: the writer is where its own accesses alone would have brought it. */
    method BeginReading(len: nat, env: nat -> seq<Action>)
      requires Valid() && consumer.ConsumerIdle?
      modifies this, buffer
      ensures Valid() && consumer == OwnReadIndexLoaded(len, r) && consumed == old(consumed) && old(published) <= published
      ensures Backlog(Model()) == Backlog(AfterPeer(old(Model()), env(0) + env(1), true, max))
      ensures trace == old(trace) + env(0) + [BeginRead(len)] + env(1) && checks == old(checks)
    {
      ghost var s0 := Model();
      PeerRuns(env(0), true);
      ghost var s1 := Model();
      ReaderIsUnseen(s1, BeginRead(len), max);
      Own(BeginRead(len));
      WriterRunAgrees(s1, Model(), env(1), max);
      PeerRuns(env(1), true);
      AfterPeerAppends(s0, env(0), env(1), true, max);
    }

    /** The last check of a reader with this outcome, which is right. */
    ghost predicate HasChecked(len: nat, found: bool)
      reads this
    {
      && consumer == (if found then PacketFound(len, r) else ConsumerIdle)
      && (found <==> |consumed| < |published|)
    }

    /** Finds the oldest packet exactly if by its check there is one. */
    method TryGetReadPacket(len: nat, env: nat -> seq<Action>) returns (ok: bool)
      requires Valid() && consumer.ConsumerIdle?
      modifies this, buffer
      ensures Valid() && consumed == old(consumed) && old(published) <= published
      ensures HasChecked(len, ok)
      ensures ok <==> Backlog(AfterPeer(old(Model()), env(0) + env(1), true, max)) > 0
      ensures checks == old(checks) + 1 && trace == CheckScript(old(trace), len, env)
    {
      checks := checks + 1;
      BeginReading(len, env);
      IndicesTell(Model(), max);
      Own(CheckData);
      ok := consumer.PacketFound?;
    }

    /** Copies the next byte of the oldest packet, after whatever the writer does first. */
    method CopyNextByte(acts: seq<Action>)
      requires Valid() && consumer.Copying? && |consumer.out| < consumer.rx && |consumed| < |published|
      modifies this, buffer
      ensures Valid() && consumed == old(consumed) && old(published) <= published && checks == old(checks)
      ensures |old(consumer).out| < |published[|consumed|]|
      ensures consumer == old(consumer).(out := old(consumer).out + [published[|consumed|][|old(consumer).out|]])
      ensures trace == old(trace) + acts + [CopyByte]
    {
      PeerRuns(acts, true);
      Own(CopyByte);
    }

    /** Loads the size, after whatever the writer does first, and cuts it to the caller's buffer. */
    method LoadCutSize(acts: seq<Action>)
      requires Valid() && consumer.PacketFound? && |consumed| < |published|
      modifies this, buffer
      ensures Valid() && consumed == old(consumed) && old(published) <= published && checks == old(checks)
      ensures consumer == Copying(old(consumer).len, r, |Truncated(published[|consumed|], old(consumer).len)|, [])
      ensures trace == old(trace) + acts + [LoadSize]
    {
      PeerRuns(acts, true);
      Own(LoadSize);
    }

    /** The copying reader has the first k bytes of the oldest packet p. */
    ghost predicate HasCopied(p: Packet, len: nat, k: nat)
      reads this
    {
      && |consumed| < |published| && published[|consumed|] == p && k <= |Truncated(p, len)|
      && consumer == Copying(len, r, |Truncated(p, len)|, p[..k])
    }

    method CopyByteNumber(k: nat, ghost p: Packet, ghost len: nat, acts: seq<Action>)
      requires Valid() && HasCopied(p, len, k) && k < |Truncated(p, len)|
      modifies this, buffer
      ensures Valid() && consumed == old(consumed) && old(published) <= published && checks == old(checks)
      ensures HasCopied(p, len, k + 1) && trace == old(trace) + acts + [CopyByte]
    {
      CopyNextByte(acts);
      assert p[..k] + [p[k]] == p[..k + 1];
    }

    /** Copies the bytes one by one, the writer acting before each, unless the user buffer faults. */
    method CopyBytes(ghost p: Packet, len: nat, fault: Fault, env: nat -> seq<Action>, at: nat) returns (ok: bool)
      requires Valid() && HasCopied(p, len, 0)
      modifies this, buffer
      ensures Valid() && consumed == old(consumed) && old(published) <= published && checks == old(checks)
      ensures ok <==> !fault.Hits(|Truncated(p, len)|)
      ensures if ok then HasCopied(p, len, |Truncated(p, len)|) else consumer.ConsumerIdle?
      ensures trace == if ok then Repeated(old(trace), CopyByte, env, at, |Truncated(p, len)|)
                       else Repeated(old(trace), CopyByte, env, at, fault.bytes) + [ReadFault]
    {
      ok := !fault.Hits(consumer.rx);
      var n := if ok then consumer.rx else fault.bytes;
      for k := 0 to n
        invariant Valid() && consumed == old(consumed) && old(published) <= published && checks == old(checks)
        invariant HasCopied(p, len, k) && trace == Repeated(old(trace), CopyByte, env, at, k)
      {
        CopyByteNumber(k, p, len, env(at + k));
      }
      if !ok {
        Own(ReadFault);
      }
    }

    /** Loads the size, cuts it to the caller's buffer and copies, unless the user buffer faults. */
    method CopyToUser(fault: Fault, env: nat -> seq<Action>, at: nat) returns (ok: bool, out: Packet)
      requires Valid() && consumer.PacketFound? && |consumed| < |published|
      modifies this, buffer
      ensures Valid() && consumed == old(consumed) && old(published) <= published && checks == old(checks)
      ensures ok <==> !fault.Hits(|Truncated(published[|consumed|], old(consumer).len)|)
      ensures ok ==> out == Truncated(published[|consumed|], old(consumer).len)
      ensures consumer == if ok then Copying(old(consumer).len, r, |out|, out) else ConsumerIdle
      ensures trace == if ok then CopyScript(old(trace), env, at, |out|)
                       else CopyScript(old(trace), env, at, fault.bytes) + [ReadFault]
    {
      ghost var p := published[|consumed|];
      var len := consumer.len;
      LoadCutSize(env(at));
      ok := CopyBytes(p, len, fault, env, at + 1);
      out := if ok then consumer.out else [];
    }

    /** Copies the packet found and releases its slot, or removes nothing if the user buffer faults. */
    method Deliver(fault: Fault, env: nat -> seq<Action>, at: nat, last: seq<Action>) returns (ok: bool, out: Packet)
      requires Valid() && consumer.PacketFound? && |consumed| < |published|
      modifies this, buffer
      ensures Valid() && consumer.ConsumerIdle? && old(published) <= published && checks == old(checks)
      ensures var p := Truncated(old(published)[|old(consumed)|], old(consumer).len);
        && (ok <==> !fault.Hits(|p|))
        && out == (if ok then p else [])
        && consumed == old(consumed) + if ok then [Delivery(old(consumer).len, p)] else []
      ensures trace == if ok then CopyScript(old(trace), env, at, |out|) + last + [Release]
                       else CopyScript(old(trace), env, at, fault.bytes) + [ReadFault]
    {
      ok, out := CopyToUser(fault, env, at);
      if ok {
        ReleasePacket(last);
      } else {
        out := [];
      }
    }

    /** A blocking caller rechecks on every wake-up until a signal arrives; `checks` counts the checks made. */
    method WaitForReadPacket(len: nat, wakeups: nat, env: nat -> nat -> seq<Action>) returns (found: bool)
      requires Valid() && consumer.ConsumerIdle?
      modifies this, buffer
      ensures Valid() && consumed == old(consumed) && old(published) <= published
      ensures HasChecked(len, found)
      ensures old(checks) < checks <= old(checks) + 1 + wakeups && (!found ==> checks == old(checks) + 1 + wakeups)
      ensures trace == ChecksScript(old(trace), len, env, checks - old(checks))
    {
      found := TryGetReadPacket(len, env(0));
      var i := 0;
      while !found && i < wakeups
        invariant Valid() && consumed == old(consumed) && old(published) <= published
        invariant HasChecked(len, found)
        invariant i <= wakeups && checks == old(checks) + 1 + i
        invariant trace == ChecksScript(old(trace), len, env, i + 1)
      {
        found := TryGetReadPacket(len, env(i + 1));
        i := i + 1;
      }
    }

    /** Moves the read index, after whatever the writer does first. */
    method ReleasePacket(acts: seq<Action>)
      requires Valid() && consumer.Copying? && |consumer.out| == consumer.rx
      modifies this, buffer
      ensures Valid() && consumer.ConsumerIdle? && old(published) <= published && checks == old(checks)
      ensures consumed == old(consumed) + [Delivery(old(consumer).len, old(consumer).out)]
      ensures trace == old(trace) + acts + [Release]
    {
      PeerRuns(acts, true);
      Own(Release);
    }

    /** What a read call with result `ret` took off the ring. */
    ghost predicate Took(before: seq<Delivery>, len: nat, fault: Fault, ret: int, out: Packet)
      reads this
    {
      if ret >= 0 then
        && ret == |out| && !fault.Hits(ret)
        && |before| < |published| && out == Truncated(published[|before|], len)
        && consumed == before + [Delivery(len, out)]
      else
        && consumed == before
        && (ret == -EFAULT ==> |before| < |published| && fault.Hits(|Truncated(published[|before|], len)|))
    }

    /** The accesses of a read call after its last check: none, an aborted copy, or a copy and the release. */
    ghost predicate Copied(t: seq<Action>, fault: Fault, env: nat -> seq<Action>, last: seq<Action>, ret: int)
      reads this
    {
      if ret >= 0 then trace == CopyScript(t, env, 0, ret) + last + [Release]
      else if ret == -EFAULT then fault.FaultAfter? && trace == CopyScript(t, env, 0, fault.bytes) + [ReadFault]
      else trace == t
    }

    /** The part of the read call after the checks. */
    method TakePacket(found: bool, len: nat, none: int, fault: Fault, env: nat -> seq<Action>, last: seq<Action>)
      returns (ret: int, out: Packet)
      requires Valid() && HasChecked(len, found)
      requires none < 0 && none != -EFAULT
      modifies this, buffer
      ensures Valid() && consumer.ConsumerIdle? && old(published) <= published && checks == old(checks)
      ensures Took(old(consumed), len, fault, ret, out) && Copied(old(trace), fault, env, last, ret)
      ensures if found then ret >= 0 || ret == -EFAULT else ret == none && Unread() == []
    {
      if !found {
        return none, [];
      }
      var ok;
      ok, out := Deliver(fault, env, 0, last);
      ret := if ok then |out| else -EFAULT;
    }

    /** The read call without waiting: no data exactly if by its one check the ring holds none. */
    method ReadNow(len: nat, fault: Fault, env: nat -> nat -> seq<Action>) returns (ret: int, out: Packet)
      requires Valid() && consumer.ConsumerIdle?
      modifies this, buffer
      ensures Valid() && consumer.ConsumerIdle? && old(published) <= published && checks == old(checks) + 1
      ensures Took(old(consumed), len, fault, ret, out)
      ensures Copied(CheckScript(old(trace), len, env(0)), fault, env(1), env(2)(0), ret)
      ensures ret >= 0 || ret == -14 || (ret == -11 && Unread() == [])
      ensures ret == -11 <==> Backlog(AfterPeer(old(Model()), env(0)(0) + env(0)(1), true, max)) <= 0
    {
      var found := TryGetReadPacket(len, env(0));
      ret, out := TakePacket(found, len, -EAGAIN, fault, env(1), env(2)(0));
    }

    /** The read call that waits until there is data or a signal arrives. */
    method ReadWhenReady(len: nat, wakeups: nat, fault: Fault, env: nat -> nat -> seq<Action>) returns (ret: int, out: Packet)
      requires Valid() && consumer.ConsumerIdle?
      modifies this, buffer
      ensures Valid() && consumer.ConsumerIdle? && old(published) <= published
      ensures Took(old(consumed), len, fault, ret, out)
      ensures ret >= 0 || ret == -14 || (ret == -4 && Unread() == [])
      ensures old(checks) < checks <= old(checks) + 1 + wakeups && (ret == -4 ==> checks == old(checks) + 1 + wakeups)
      ensures Copied(ChecksScript(old(trace), len, env, checks - old(checks)), fault, env(wakeups + 1), env(wakeups + 2)(0), ret)
    {
      var found := WaitForReadPacket(len, wakeups, env);
      ret, out := TakePacket(found, len, -EINTR, fault, env(wakeups + 1), env(wakeups + 2)(0));
    }

    /** The driver's read call: one packet, cut to the caller's length, or the reason why not. */
    method DevRead(len: nat, nonblocking: bool, wakeups: nat, fault: Fault, env: nat -> nat -> seq<Action>)
      returns (ret: int, out: Packet)
      requires Valid() && consumer.ConsumerIdle?
      modifies this, buffer
      ensures Valid() && consumer.ConsumerIdle? && old(published) <= published
      ensures Took(old(consumed), len, fault, ret, out)
      ensures ret >= 0 || ret == -14 || (ret == (if nonblocking then -11 else -4) && Unread() == [])
      ensures nonblocking ==>
        (ret == -11 <==> Backlog(AfterPeer(old(Model()), env(0)(0) + env(0)(1), true, max)) <= 0)
      ensures old(checks) < checks <= old(checks) + 1 + (if nonblocking then 0 else wakeups)
      ensures ret == -4 ==> checks == old(checks) + 1 + wakeups
    {
      if nonblocking {
        ret, out := ReadNow(len, fault, env);
      } else {
        ret, out := ReadWhenReady(len, wakeups, fault, env);
      }
    }

    /** The bare-metal read call: hands out at most one packet, exactly if by its check there is one. */
    method IpcTunnelRead(size: nat, env: nat -> seq<Action>) returns (out: Packet)
      requires Valid() && consumer.ConsumerIdle?
      modifies this, buffer
      ensures Valid() && consumer.ConsumerIdle? && old(published) <= published
      ensures consumed != old(consumed) <==> Backlog(AfterPeer(old(Model()), env(0) + env(1), true, max)) > 0
      ensures consumed == old(consumed) ==> out == []
      ensures consumed != old(consumed) ==>
        && |old(consumed)| < |published|
        && out == Truncated(published[|old(consumed)|], size)
        && consumed == old(consumed) + [Delivery(size, out)]
      ensures var t := CheckScript(old(trace), size, env);
        trace == if consumed == old(consumed) then t else CopyScript(t, (i: nat) => env(i + 3), 0, |out|) + env(2) + [Release]
    {
      var found := TryGetReadPacket(size, env);
      out := [];
      if found {
        var ok;
        ok, out := Deliver(NoFault, (i: nat) => env(i + 3), 0, env(2));
      }
    }
  }
}
