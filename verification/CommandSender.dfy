/**
 Both ends of the command channel: the Linux side that builds one command at a
 time and retries it until the ring takes it, and the bare-metal side that walks
 over a received packet and stores the values.
 */
module CommandSender {
  import opened Bytes
  import opened CommandCodec
  import ModArith
  import RingProtocol
  import TunnelDriver

  const SET_COUNT := 3

  /** How the sender computes the raw bytes of a value; the arithmetic is not part of the model. */
  type ValueOf = (Kind, nat) -> Packet

  ghost predicate RightWidths(values: ValueOf) {
    forall k: Kind, r: nat :: |values(k, r)| == Width(k)
  }

  /** The commands drawn from a random number: two bits of tag, an id below 16, then shift by two. */
  function RandomSet(values: ValueOf, rand: nat): SetCommand {
    var kind := KindOf(rand % 4);
    SetCommand(kind, (rand + 13) % VARIABLE_COUNT, values(kind, rand))
  }

  function RandomSets(values: ValueOf, rand: nat, n: nat): (cs: seq<SetCommand>)
    ensures |cs| == n
  {
    if n == 0 then [] else [RandomSet(values, rand)] + RandomSets(values, rand / 4, n - 1)
  }

  /** The width of a value, by its tag. */
  function TagWidth(tag: nat): nat
    requires tag < 4
  {
    [8, 4, 2, 1][tag]
  }

  /** The command drawn from q: tag the low two bits, id q plus 13 modulo 16. */
  ghost predicate DrawnFrom(c: SetCommand, values: ValueOf, q: nat) {
    Tag(c.kind) == q % 4 && c.id == (q + 13) % 16 && c.value == values(c.kind, q)
  }

  lemma DrawnOne(values: ValueOf, q: nat)
    ensures DrawnFrom(RandomSet(values, q), values, q)
  {
  }

  /** The random number shifted right by 2i bits. */
  function Shifted(rand: nat, i: nat): nat {
    if i == 0 then rand else Shifted(rand / 4, i - 1)
  }

  /** Command i of those drawn is fixed by the random number shifted right by 2i bits. */
  lemma {:induction false} DrawnCommand(values: ValueOf, rand: nat, n: nat, i: nat)
    requires i < n
    ensures DrawnFrom(RandomSets(values, rand, n)[i], values, Shifted(rand, i))
  {
    if i == 0 {
      DrawnOne(values, rand);
    } else {
      DrawnCommand(values, rand / 4, n - 1, i - 1);
    }
  }

  function Power4(i: nat): (p: nat)
    ensures p > 0
  {
    if i == 0 then 1 else 4 * Power4(i - 1)
  }

  lemma {:induction false} ShiftedIsQuotient(rand: nat, i: nat)
    ensures Shifted(rand, i) == rand / Power4(i)
  {
    if i > 0 {
      ShiftedIsQuotient(rand / 4, i - 1);
      ModArith.QuotientOfQuotient(rand, 4, Power4(i - 1));
    }
  }

  /** What one drawn command takes: id, tag and value. */
  lemma DrawnPiece(values: ValueOf, q: nat)
    requires RightWidths(values)
    ensures var e := EncodeSet(RandomSet(values, q));
      && |e| == 2 + TagWidth(q % 4)
      && e[0] == (q + 13) % 16 && e[1] == q % 4 && e[2..] == values(KindOf(q % 4), q)
  {
  }

  /** The bytes of the three commands, written out: id, tag and value of each, one after the other. */
  lemma DrawnBytes(values: ValueOf, rand: nat)
    requires RightWidths(values)
    ensures var e, q1, q2 := EncodeSets(RandomSets(values, rand, 3)), rand / 4, rand / 16;
      var w0, w1, w2 := TagWidth(rand % 4), TagWidth(q1 % 4), TagWidth(q2 % 4);
      && |e| == 6 + w0 + w1 + w2
      && IsDrawn(values, rand, e[..2 + w0])
      && IsDrawn(values, q1, e[2 + w0..4 + w0 + w1])
      && IsDrawn(values, q2, e[4 + w0 + w1..])
  {
    var a, b, c := RandomSet(values, rand), RandomSet(values, rand / 4), RandomSet(values, rand / 16);
    DrawnThree(values, rand);
    EncodedThree(a, b, c);
    DrawnPiece(values, rand);
    DrawnPiece(values, rand / 4);
    DrawnPiece(values, rand / 16);
    ThreePieces(EncodeSet(a), EncodeSet(b), EncodeSet(c));
  }

  lemma FirstDrawn(values: ValueOf, rand: nat, e: Packet)
    requires RightWidths(values) && e == EncodeSets(RandomSets(values, rand, 3))
    ensures |e| > 1 && e[0] == (rand + 13) % 16 && e[1] == rand % 4
  {
    DrawnBytes(values, rand);
    var head := e[..2 + TagWidth(rand % 4)];
    assert e[0] == head[0] && e[1] == head[1];
  }

  /** The bytes are those of the command drawn from q: the id is q plus 13 modulo 16, the tag the low two bits. */
  ghost predicate IsDrawn(values: ValueOf, q: nat, e: Packet) {
    |e| >= 2 && e[0] == (q + 13) % 16 && e[1] == q % 4 && e[2..] == values(KindOf(q % 4), q)
  }

  lemma ThreePieces(a: Packet, b: Packet, c: Packet)
    ensures var e := a + b + c; e[..|a|] == a && e[|a|..|a| + |b|] == b && e[|a| + |b|..] == c
  {
  }

  lemma DrawnThree(values: ValueOf, rand: nat)
    ensures RandomSets(values, rand, 3) == [RandomSet(values, rand), RandomSet(values, rand / 4), RandomSet(values, rand / 16)]
  {
    var q := rand / 16;
    assert rand / 4 / 4 == q;
    assert RandomSets(values, q, 1) == [RandomSet(values, q)] + RandomSets(values, q / 4, 0);
    assert RandomSets(values, rand / 4, 2) == [RandomSet(values, rand / 4)] + RandomSets(values, q, 1);
  }

  lemma EncodedThree(a: SetCommand, b: SetCommand, c: SetCommand)
    ensures EncodeSets([a, b, c]) == EncodeSet(a) + EncodeSet(b) + EncodeSet(c)
  {
    EncodeSetsAppend([], a);
    EncodeSetsAppend([a], b);
    EncodeSetsAppend([a, b], c);
    assert [a] + [b] == [a, b] && [a, b] + [c] == [a, b, c] && [] + [a] == [a];
  }

  /** Every drawn command is valid, and n of them take at most 10n bytes. */
  lemma {:induction false} RandomSetsFit(values: ValueOf, rand: nat, n: nat)
    requires RightWidths(values)
    ensures forall i :: 0 <= i < n ==> RandomSets(values, rand, n)[i].Valid()
    ensures 3 * n <= |EncodeSets(RandomSets(values, rand, n))| <= 10 * n
  {
    if n == 0 {
    } else {
      RandomSetsFit(values, rand / 4, n - 1);
      var cs := RandomSets(values, rand, n);
      assert cs[0].Valid() && cs[1..] == RandomSets(values, rand / 4, n - 1);
    }
  }

  /** Whatever is drawn, a command fits the buffer of header plus 32 bytes. */
  lemma CommandFitsBuffer(values: ValueOf, rand: nat)
    requires RightWidths(values)
    ensures 16 + |EncodeSets(RandomSets(values, rand, 3))| <= 46 <= BUFFER_SIZE == 48
  {
    RandomSetsFit(values, rand, SET_COUNT);
  }

  lemma {:induction false} EncodeSetsAppend(cs: seq<SetCommand>, c: SetCommand)
    ensures EncodeSets(cs + [c]) == EncodeSets(cs) + EncodeSet(c)
    decreases |cs|
  {
    if cs == [] {
      assert cs + [c] == [c] && [c][1..] == [];
    } else {
      var p, head, rest := cs + [c], EncodeSet(cs[0]), EncodeSets(cs[1..]);
      EncodeSetsAppend(cs[1..], c);
      assert p[0] == cs[0] && p[1..] == cs[1..] + [c];
      assert EncodeSets(p) == head + (rest + EncodeSet(c));
      Regroup(head, rest, EncodeSet(c), []);
    }
  }

  /** `memcpy` of a few bytes into the send buffer. */
  method Put(a: array<Byte>, at: nat, s: Packet)
    requires at + |s| <= a.Length
    modifies a
    ensures forall i :: 0 <= i < a.Length ==> a[i] == if at <= i < at + |s| then s[i - at] else old(a[i])
  {
    for k := 0 to |s|
      invariant forall i :: 0 <= i < a.Length ==> a[i] == if at <= i < at + k then s[i - at] else old(a[i])
    {
      a[at + k] := s[k];
    }
  }

  /** One turn of the encoder: id and tag, then the value; the cursor moves behind both. */
  method WriteSet(a: array<Byte>, at: nat, c: SetCommand) returns (end: nat)
    requires HEADER_SIZE <= at && at + 2 + |c.value| <= a.Length
    modifies a
    ensures end == at + 2 + |c.value|
    ensures a[HEADER_SIZE..end] == old(a[HEADER_SIZE..at]) + EncodeSet(c)
    ensures forall i :: 0 <= i < HEADER_SIZE ==> a[i] == old(a[i])
  {
    Put(a, at, [c.id, Tag(c.kind)]);
    Put(a, at + 2, c.value);
    end := at + 2 + |c.value|;
  }

  /** The cursor-advancing loop of the encoder. */
  method WriteSets(a: array<Byte>, values: ValueOf, rand: nat) returns (end: nat)
    requires a.Length == BUFFER_SIZE && RightWidths(values)
    modifies a
    ensures HEADER_SIZE <= end <= a.Length
    ensures a[HEADER_SIZE..end] == EncodeSets(RandomSets(values, rand, SET_COUNT))
    ensures a[16] == (rand + 13) % 16 && a[17] == rand % 4
    ensures forall i :: 0 <= i < HEADER_SIZE ==> a[i] == old(a[i])
  {
    ghost var all := RandomSets(values, rand, SET_COUNT);
    ghost var written: seq<SetCommand> := [];
    var r := rand;
    end := HEADER_SIZE;
    for i := 0 to SET_COUNT
      invariant HEADER_SIZE <= end <= HEADER_SIZE + 10 * i
      invariant |written| == i && written + RandomSets(values, r, SET_COUNT - i) == all
      invariant a[HEADER_SIZE..end] == EncodeSets(written)
      invariant forall i :: 0 <= i < HEADER_SIZE ==> a[i] == old(a[i])
    {
      var c := RandomSet(values, r);
      EncodeSetsAppend(written, c);
      end := WriteSet(a, end, c);
      written := written + [c];
      r := r / 4;
    }
    assert written == all;
    FirstDrawn(values, rand, a[HEADER_SIZE..end]);
  }

  method WriteHeader(a: array<Byte>, c: Command)
    requires a.Length == BUFFER_SIZE
    modifies a
    ensures a[..14] == ToLE(c.timestamp, 8) + ToLE(c.packetId, 2) + ToLE(c.flags, 2) + ToLE(|c.sets|, 2)
  {
    Put(a, 10, ToLE(c.flags, 2));
    Put(a, 8, ToLE(c.packetId, 2));
    Put(a, 0, ToLE(c.timestamp, 8));
    Put(a, 12, ToLE(|c.sets|, 2));
    assert a[0..8] == ToLE(c.timestamp, 8);
    assert a[8..10] == ToLE(c.packetId, 2);
    assert a[10..12] == ToLE(c.flags, 2);
    assert a[12..14] == ToLE(|c.sets|, 2);
    assert a[..14] == a[0..8] + a[8..10] + a[10..12] + a[12..14];
  }

  /** The i-th generated command and the bytes it was encoded to; the two padding bytes are the buffer's. */
  ghost predicate IsGenerated(c: Command, bytes: Packet, i: nat) {
    && c.Valid() && c.packetId == (i + 1) % TWO_TO_16 && c.flags == 0 && |c.sets| == SET_COUNT
    && HEADER_SIZE < |bytes| <= BUFFER_SIZE
    && bytes == Encode(c, bytes[14..16])
  }

  ghost predicate AllGenerated(generated: seq<Command>, encoded: seq<Packet>) {
    && |encoded| == |generated|
    && forall i :: 0 <= i < |generated| ==> IsGenerated(generated[i], encoded[i], i)
  }

  /** The 32-bit id counter, cut to 16 bits, numbers the packets from one. */
  lemma NextIds(n: nat)
    ensures (n + 1) % TWO_TO_32 % TWO_TO_16 == (n + 1) % TWO_TO_16
    ensures ((n + 1) % TWO_TO_32 + 1) % TWO_TO_32 == (n + 2) % TWO_TO_32
  {
    var q, r := (n + 1) / TWO_TO_32, (n + 1) % TWO_TO_32;
    assert n + 1 == TWO_TO_16 * (TWO_TO_16 * q + r / TWO_TO_16) + r % TWO_TO_16;
    ModArith.RemainderOf(TWO_TO_16 * q + r / TWO_TO_16, r % TWO_TO_16, TWO_TO_16);
    ModArith.SuccessorIndex(n + 1, TWO_TO_32);
  }

  lemma GeneratedAppend(generated: seq<Command>, encoded: seq<Packet>, c: Command, bytes: Packet)
    requires AllGenerated(generated, encoded) && IsGenerated(c, bytes, |generated|)
    ensures AllGenerated(generated + [c], encoded + [bytes])
  {
  }

  /** Header, then commands: the buffer's first bytes are the encoded command. */
  method WriteCommand(a: array<Byte>, c: Command, values: ValueOf, rand: nat) returns (size: nat)
    requires a.Length == BUFFER_SIZE && RightWidths(values) && c.sets == RandomSets(values, rand, SET_COUNT)
    modifies a
    ensures HEADER_SIZE < size <= a.Length
    ensures a[..size] == Encode(c, a[14..16])
  {
    WriteHeader(a, c);
    ghost var header := a[..HEADER_SIZE];
    size := WriteSets(a, values, rand);
    RandomSetsFit(values, rand, SET_COUNT);
    assert a[..HEADER_SIZE] == header && header == header[..14] + a[14..16];
    assert a[..size] == header + a[HEADER_SIZE..size];
  }

  /** The command built from a clock reading and a random number. */
  ghost predicate Drawn(c: Command, timestamp: nat, values: ValueOf, rand: nat) {
    c.timestamp == timestamp && c.sets == RandomSets(values, rand, SET_COUNT)
  }

  /** Command k was built in iteration at[k], an odd one below n, with that iteration's clock and random number. */
  ghost predicate DrawnAt(cs: seq<Command>, at: seq<nat>, n: nat, clock: nat -> nat, values: ValueOf, rand: nat -> nat) {
    && |at| == |cs|
    && (forall k :: 0 <= k < |at| ==> at[k] < n && at[k] % 2 == 1)
    && (forall k :: 0 < k < |at| ==> at[k - 1] < at[k])
    && (forall k :: 0 <= k < |at| ==> Drawn(cs[k], clock(at[k]) % TWO_TO_64, values, rand(at[k])))
  }

  lemma DrawnLater(cs: seq<Command>, at: seq<nat>, n: nat, clock: nat -> nat, values: ValueOf, rand: nat -> nat)
    requires DrawnAt(cs, at, n, clock, values, rand)
    ensures DrawnAt(cs, at, n + 1, clock, values, rand)
  {
  }

  lemma OneMoreDrawn(
    cs: seq<Command>, cs': seq<Command>, at: seq<nat>, n: nat, clock: nat -> nat, values: ValueOf, rand: nat -> nat)
    requires DrawnAt(cs, at, n, clock, values, rand) && n % 2 == 1
    requires |cs'| == |cs| + 1 && cs <= cs' && Drawn(cs'[|cs|], clock(n) % TWO_TO_64, values, rand(n))
    ensures DrawnAt(cs', at + [n], n + 1, clock, values, rand)
  {
  }

  /** The Linux side: at most one command is waiting in the buffer. */
  class T0CommandSender {
    const sendPacketBuffer: array<Byte>
    var sendPacketSize: nat
    var packetIdCounter: nat
    var delayedPacketCounter: nat
    ghost var generated: seq<Command>
    ghost var encoded: seq<Packet>
    ghost var refusals: nat

    ghost predicate Valid()
      reads this, sendPacketBuffer
    {
      && sendPacketBuffer.Length == BUFFER_SIZE && sendPacketSize <= BUFFER_SIZE
      && |encoded| == |generated|
      && packetIdCounter == (|generated| + 1) % TWO_TO_32
      && delayedPacketCounter == refusals % TWO_TO_32
      && AllGenerated(generated, encoded)
      && (sendPacketSize > 0 ==> encoded != [] && sendPacketBuffer[..sendPacketSize] == encoded[|encoded| - 1])
    }

    /** The packets the ring has taken: all generated ones but the one still waiting. */
    ghost function Accepted(): seq<Packet>
      requires Valid()
      reads this, sendPacketBuffer
    {
      if sendPacketSize > 0 then encoded[..|encoded| - 1] else encoded
    }

    constructor ()
      ensures Valid() && fresh(sendPacketBuffer) && generated == [] && refusals == 0 && sendPacketSize == 0
    {
      sendPacketBuffer := new Byte[BUFFER_SIZE](_ => 0);
      sendPacketSize, packetIdCounter, delayedPacketCounter := 0, 1, 0;
      generated, encoded, refusals := [], [], 0;
    }

    method Generate(timestamp: nat, values: ValueOf, rand: nat)
      requires Valid() && sendPacketSize == 0 && timestamp < TWO_TO_64 && RightWidths(values)
      modifies this, sendPacketBuffer
      ensures Valid() && sendPacketSize > 0 && Accepted() == old(Accepted())
      ensures |generated| == |old(generated)| + 1 && old(generated) <= generated && refusals == old(refusals)
      ensures Drawn(generated[|old(generated)|], timestamp, values, rand)
    {
      var c := Command(timestamp, packetIdCounter % TWO_TO_16, 0, RandomSets(values, rand, SET_COUNT));
      packetIdCounter := (packetIdCounter + 1) % TWO_TO_32;
      sendPacketSize := WriteCommand(sendPacketBuffer, c, values, rand);
      ghost var bytes := sendPacketBuffer[..sendPacketSize];
      RandomSetsFit(values, rand, SET_COUNT);
      NextIds(|generated|);
      assert IsGenerated(c, bytes, |generated|);
      GeneratedAppend(generated, encoded, c, bytes);
      generated, encoded := generated + [c], encoded + [bytes];
    }

    /** Drops the waiting command from the buffer if it was taken, counts the refusal otherwise. */
    method Settle(taken: bool)
      requires Valid() && sendPacketSize > 0
      modifies this`sendPacketSize, this`delayedPacketCounter, this`refusals
      ensures Valid() && sendPacketSize == (if taken then 0 else old(sendPacketSize))
      ensures refusals == old(refusals) + (if taken then 0 else 1)
      ensures Accepted() == if taken then old(Accepted()) + [encoded[|encoded| - 1]] else old(Accepted())
    {
      if taken {
        sendPacketSize := 0;
        assert encoded == encoded[..|encoded| - 1] + [encoded[|encoded| - 1]];
      } else {
        delayedPacketCounter := (delayedPacketCounter + 1) % TWO_TO_32;
        refusals := refusals + 1;
      }
    }

    /** The write call for the waiting command. */
    method SendWaiting(t: TunnelDriver.Tunnel, env: nat -> seq<RingProtocol.Action>) returns (sent: bool)
      requires sendPacketBuffer.Length == BUFFER_SIZE && 0 < sendPacketSize <= BUFFER_SIZE
      requires encoded != [] && sendPacketBuffer[..sendPacketSize] == encoded[|encoded| - 1]
      requires t.Valid() && t.producer.ProducerIdle? && t.max >= BUFFER_SIZE && t.buffer != sendPacketBuffer
      modifies t, t.buffer
      ensures t.Valid() && t.producer.ProducerIdle?
      ensures t.published == if sent then old(t.published) + [encoded[|encoded| - 1]] else old(t.published)
      ensures !sent ==> |old(t.Unread())| == t.count - 1
      ensures sent <==> old(t.HasRoom(env))
    {
      var packet := sendPacketBuffer[..sendPacketSize];
      assert 0 < |packet| <= t.max;
      sent := t.Send(packet, env);
    }

    /** Offers the waiting command to the ring; a refused one stays in the buffer. */
    method Offer(t: TunnelDriver.Tunnel, env: nat -> seq<RingProtocol.Action>)
      requires Valid() && sendPacketSize > 0
      requires t.Valid() && t.producer.ProducerIdle? && t.max >= BUFFER_SIZE && t.buffer != sendPacketBuffer
      modifies this`sendPacketSize, this`delayedPacketCounter, this`refusals, t, t.buffer
      ensures Valid() && t.Valid() && t.producer.ProducerIdle?
      ensures sendPacketSize == 0 <==> old(t.HasRoom(env))
      ensures sendPacketSize == 0 ==>
        && refusals == old(refusals)
        && Accepted() == old(Accepted()) + [encoded[|encoded| - 1]]
        && t.published == old(t.published) + [encoded[|encoded| - 1]]
      ensures sendPacketSize > 0 ==>
        && refusals == old(refusals) + 1 && Accepted() == old(Accepted())
        && t.published == old(t.published) && |old(t.Unread())| == t.count - 1
    {
      var sent := SendWaiting(t, env);
      Settle(sent);
    }

    /** Builds a command only if none is waiting, then offers the waiting one to the ring. */
    method SendRandomVariableUpdate(
      t: TunnelDriver.Tunnel, timestamp: nat, values: ValueOf, rand: nat, env: nat -> seq<RingProtocol.Action>)
      requires Valid() && timestamp < TWO_TO_64 && RightWidths(values)
      requires t.Valid() && t.producer.ProducerIdle? && t.max >= BUFFER_SIZE && t.buffer != sendPacketBuffer
      modifies this, sendPacketBuffer, t, t.buffer
      ensures Valid() && t.Valid() && t.producer.ProducerIdle?
      ensures old(generated) <= generated && |generated| == |old(generated)| + (if old(sendPacketSize) == 0 then 1 else 0)
      ensures old(sendPacketSize) == 0 ==> Drawn(generated[|old(generated)|], timestamp, values, rand)
      ensures sendPacketSize == 0 <==> old(t.HasRoom(env))
      ensures sendPacketSize == 0 ==>
        && refusals == old(refusals) && encoded != []
        && Accepted() == old(Accepted()) + [encoded[|encoded| - 1]]
        && t.published == old(t.published) + [encoded[|encoded| - 1]]
      ensures sendPacketSize > 0 ==>
        && refusals == old(refusals) + 1 && Accepted() == old(Accepted())
        && t.published == old(t.published) && |old(t.Unread())| == t.count - 1
    {
      if sendPacketSize == 0 {
        Generate(timestamp, values, rand);
      }
      Offer(t, env);
    }

    /** The sender and the ring after n iterations of the Linux thread. */
    ghost predicate Progress(
      t: TunnelDriver.Tunnel, start: seq<Packet>, at: seq<nat>, n: nat, clock: nat -> nat, values: ValueOf, rand: nat -> nat)
      reads this, sendPacketBuffer, t, t.buffer
    {
      && Valid() && t.Valid() && t.producer.ProducerIdle?
      && t.published == start + Accepted()
      && |Accepted()| + refusals == n / 2
      && DrawnAt(generated, at, n, clock, values, rand)
    }

    method Iteration(
      t: TunnelDriver.Tunnel, ghost start: seq<Packet>, ghost at: seq<nat>, i: nat, clock: nat -> nat, values: ValueOf,
      rand: nat -> nat, env: nat -> seq<RingProtocol.Action>)
      returns (ghost at': seq<nat>)
      requires Progress(t, start, at, i, clock, values, rand) && RightWidths(values)
      requires t.max >= BUFFER_SIZE && t.buffer != sendPacketBuffer
      modifies this, sendPacketBuffer, t, t.buffer
      ensures Progress(t, start, at', i + 1, clock, values, rand)
    {
      DrawnLater(generated, at, i, clock, values, rand);
      at' := at;
      if i % 2 == 1 {
        ghost var before, waiting := generated, sendPacketSize > 0;
        SendRandomVariableUpdate(t, clock(i) % TWO_TO_64, values, rand(i), env);
        if !waiting {
          OneMoreDrawn(before, generated, at, i, clock, values, rand);
          at' := at + [i];
        }
      }
    }

    /** The Linux thread's loop: an attempt on every odd iteration; each attempt ends in one acceptance or one refusal. */
    method SendEveryOtherIteration(
      t: TunnelDriver.Tunnel, iterations: nat, clock: nat -> nat, values: ValueOf, rand: nat -> nat,
      env: nat -> nat -> seq<RingProtocol.Action>)
      returns (ghost at: seq<nat>)
      requires Valid() && generated == [] && refusals == 0 && sendPacketSize == 0 && RightWidths(values)
      requires t.Valid() && t.producer.ProducerIdle? && t.max >= BUFFER_SIZE && t.buffer != sendPacketBuffer
      modifies this, sendPacketBuffer, t, t.buffer
      ensures Valid() && t.Valid() && t.producer.ProducerIdle?
      ensures t.published == old(t.published) + Accepted()
      ensures |Accepted()| + refusals == iterations / 2
      ensures |generated| - 1 <= |Accepted()| <= |generated|
      ensures DrawnAt(generated, at, iterations, clock, values, rand)
    {
      at := [];
      for i := 0 to iterations
        invariant Progress(t, old(t.published), at, i, clock, values, rand)
      {
        at := Iteration(t, old(t.published), at, i, clock, values, rand, env(i));
      }
    }
  }

  // --------------------------------------------------------- the receiving side

  /** The bare-metal variable tables, written in place. */
  class CommandTarget {
    const vd: array<Packet>
    const vf: array<Packet>
    const vs: array<Packet>
    const vb: array<Packet>
    var lastSetPacketId: nat
    var lastSetReceiveTimestamp: nat
    var lastSetSendTimestamp: nat
    var commandPacketId: nat
    var commandPacketLatency: nat
    var running: bool

    ghost predicate Valid()
      reads this
    {
      && vd.Length == vf.Length == vs.Length == vb.Length == VARIABLE_COUNT
      && vd != vf && vd != vs && vd != vb && vf != vs && vf != vb && vs != vb
    }

    ghost function Tables(): Variables
      reads this, vd, vf, vs, vb
    {
      Variables(vd[..], vf[..], vs[..], vb[..])
    }

    ghost function View(): Target
      reads this, vd, vf, vs, vb
    {
      Target(Tables(), lastSetPacketId, lastSetReceiveTimestamp, lastSetSendTimestamp,
             commandPacketId, commandPacketLatency, running)
    }

    method StoreValue(tag: nat, id: nat, value: Packet)
      requires Valid() && tag < 4 && id < VARIABLE_COUNT
      modifies vd, vf, vs, vb
      ensures Tables() == Store(old(Tables()), KindOf(tag), id, value)
      ensures vd[..] == if tag == 0 then old(vd[..])[id := value] else old(vd[..])
      ensures vf[..] == if tag == 1 then old(vf[..])[id := value] else old(vf[..])
      ensures vs[..] == if tag == 2 then old(vs[..])[id := value] else old(vs[..])
      ensures vb[..] == if tag == 3 then old(vb[..])[id := value] else old(vb[..])
    {
      if tag == 0 {
        vd[id] := value;
      } else if tag == 1 {
        vf[id] := value;
      } else if tag == 2 {
        vs[id] := value;
      } else {
        vb[id] := value;
      }
    }

    /** The pointer-moving loop: n commands from the end of the header on. */
    method StoreValues(data: Packet, n: nat) returns (at: nat)
      requires Valid() && Decodable(data, HEADER_SIZE, n)
      modifies vd, vf, vs, vb
      ensures (Tables(), at) == Decode(old(Tables()), data, HEADER_SIZE, n)
    {
      at := HEADER_SIZE;
      for i := 0 to n
        invariant Decodable(data, at, n - i)
        invariant Decode(Tables(), data, at, n - i) == Decode(old(Tables()), data, HEADER_SIZE, n)
      {
        var tag := data[at + 1];
        var end := at + 2 + Width(KindOf(tag));
        StoreValue(tag, data[at], data[at + 2..end]);
        at := end;
      }
    }

    method HandleT0Packet(data: Packet, receiveTime: nat)
      requires Valid() && DecodablePacket(data)
      modifies this, vd, vf, vs, vb
      ensures View() == Handle(old(View()), data, receiveTime)
    {
      commandPacketId := FromLE(data[8..10]);
      commandPacketLatency := Low(receiveTime - FromLE(data[0..8]));
      lastSetPacketId := FromLE(data[8..10]);
      lastSetReceiveTimestamp := receiveTime;
      lastSetSendTimestamp := FromLE(data[0..8]);
      if FromLE(data[10..12]) == SHUTDOWN_FLAGS {
        running := false;
      }
      var end := StoreValues(data, FromLE(data[12..14]));
    }
  }

  // ---------------------------------------------------------------- end to end

  /** The target after handling the first n packets. */
  ghost function HandleFirst(t: Target, packets: seq<Packet>, clock: nat -> nat, n: nat): (t': Target)
    requires t.vars.Valid() && n <= |packets| && forall i :: 0 <= i < n ==> DecodablePacket(packets[i])
    ensures t'.vars.Valid()
    decreases n
  {
    if n == 0 then t else Handle(HandleFirst(t, packets, clock, n - 1), packets[n - 1], clock(n - 1))
  }

  /** The target after the first n commands have done what they say. */
  ghost function EffectOfFirst(t: Target, cs: seq<Command>, clock: nat -> nat, n: nat): (t': Target)
    requires t.vars.Valid() && n <= |cs| && forall i :: 0 <= i < n ==> cs[i].Valid()
    ensures t'.vars.Valid()
    decreases n
  {
    if n == 0 then t
    else assert cs[n - 1].Valid(); Effect(EffectOfFirst(t, cs, clock, n - 1), cs[n - 1], clock(n - 1))
  }

  /** Handling the packet does what the command says, whatever the target's state. */
  ghost predicate Carries(bytes: Packet, c: Command) {
    && c.Valid() && DecodablePacket(bytes)
    && forall t: Target, now: nat :: t.vars.Valid() ==> Handle(t, bytes, now) == Effect(t, c, now)
  }

  lemma GeneratedCarries(c: Command, bytes: Packet, i: nat)
    requires IsGenerated(c, bytes, i)
    ensures Carries(bytes, c)
  {
    forall t: Target, now: nat | t.vars.Valid()
      ensures DecodablePacket(bytes) && Handle(t, bytes, now) == Effect(t, c, now)
    {
      HandleUndoesEncode(t, c, bytes[14..16], now);
    }
    var tables := seq(VARIABLE_COUNT, _ => []);
    HandleUndoesEncode(Target(Variables(tables, tables, tables, tables), 0, 0, 0, 0, 0, true), c, bytes[14..16], 0);
  }

  /** An ordinary command does not stop the bare-metal program. */
  lemma GeneratedKeepsRunning(t: Target, c: Command, bytes: Packet, i: nat, now: nat)
    requires t.vars.Valid() && IsGenerated(c, bytes, i)
    ensures DecodablePacket(bytes) && Handle(t, bytes, now).running == t.running
  {
    HandledPacket(t, c, bytes[14..16], now);
  }

  /** The first n packets carry the first n commands. */
  ghost predicate CarryFirst(packets: seq<Packet>, cs: seq<Command>, n: nat) {
    && n <= |cs| && n <= |packets|
    && (forall i :: 0 <= i < n ==> Carries(packets[i], cs[i]))
  }

  lemma {:induction false} CarriedTakesEffect(t: Target, cs: seq<Command>, packets: seq<Packet>, clock: nat -> nat, n: nat)
    requires t.vars.Valid() && CarryFirst(packets, cs, n)
    ensures HandleFirst(t, packets, clock, n) == EffectOfFirst(t, cs, clock, n)
  {
    if n == 0 {
    } else {
      CarriedTakesEffect(t, cs, packets, clock, n - 1);
      assert Carries(packets[n - 1], cs[n - 1]);
    }
  }

  /** The bytes the reader got, one entry per read. */
  ghost function Read(consumed: seq<RingProtocol.Delivery>): (ps: seq<Packet>)
    ensures |ps| == |consumed| && forall i :: 0 <= i < |consumed| ==> ps[i] == consumed[i].bytes
  {
    seq(|consumed|, i requires 0 <= i < |consumed| => consumed[i].bytes)
  }

  lemma Untruncated(p: Packet, len: nat)
    requires |p| <= len
    ensures Truncated(p, len) == p
  {
  }

  /** Deliveries of published commands into large enough buffers carry those commands. */
  lemma DeliveriesCarry(s: RingProtocol.State, lead: nat, generated: seq<Command>, encoded: seq<Packet>)
    requires RingProtocol.DeliveriesAgree(s) && AllGenerated(generated, encoded)
    requires lead <= |s.consumed| && s.published[lead..] <= encoded
    requires forall i :: lead <= i < |s.consumed| ==> s.consumed[i].len >= BUFFER_SIZE
    ensures CarryFirst(Read(s.consumed[lead..]), generated, |s.consumed| - lead)
  {
    var read := Read(s.consumed[lead..]);
    forall i | 0 <= i < |read|
      ensures Carries(read[i], generated[i])
    {
      var d := s.consumed[lead + i];
      assert s.published[lead..][i] == encoded[i];
      assert IsGenerated(generated[i], encoded[i], i);
      Untruncated(encoded[i], d.len);
      assert read[i] == d.bytes == Truncated(s.published[lead + i], d.len);
      GeneratedCarries(generated[i], encoded[i], i);
    }
  }

  /**
   Through the ring, whatever the interleaving: after `lead` packets that are no
   commands (the start packet), the bare-metal side has carried out exactly the
   oldest generated commands, each once, unmodified and in order.
   */
  lemma DeliveredCommandsTakeEffect(
    tr: seq<RingProtocol.State>, acts: seq<RingProtocol.Action>, capacity: nat, lead: nat,
    generated: seq<Command>, encoded: seq<Packet>, t: Target, clock: nat -> nat)
    requires RingProtocol.IsRun(tr, acts, capacity) && RingProtocol.IsInit(tr[0], capacity)
    requires lead <= |tr[|acts|].consumed| && lead <= |tr[|acts|].published| && tr[|acts|].published[lead..] <= encoded
    requires AllGenerated(generated, encoded) && t.vars.Valid()
    requires forall i :: lead <= i < |tr[|acts|].consumed| ==> tr[|acts|].consumed[i].len >= BUFFER_SIZE
    ensures var read := Read(tr[|acts|].consumed[lead..]);
      && CarryFirst(read, generated, |read|)
      && HandleFirst(t, read, clock, |read|) == EffectOfFirst(t, generated, clock, |read|)
  {
    RingProtocol.RunKeepsInv(tr, acts, capacity, |acts|);
    DeliveriesCarry(tr[|acts|], lead, generated, encoded);
    var read := Read(tr[|acts|].consumed[lead..]);
    CarriedTakesEffect(t, generated, read, clock, |read|);
  }

  /**
   The same for the sender's and the tunnel's own state, as the sending loop leaves them: the commands read have been
   carried out in order, and what is still under way fits the ring and the send buffer.
   */
  lemma SenderAndTunnelDeliver(s: T0CommandSender, t: TunnelDriver.Tunnel, lead: nat, target: Target, clock: nat -> nat)
    requires s.Valid() && t.Valid() && target.vars.Valid()
    requires lead <= |t.consumed| && lead <= |t.published| && t.published[lead..] == s.Accepted()
    requires forall i :: lead <= i < |t.consumed| ==> t.consumed[i].len >= BUFFER_SIZE
    ensures var read := Read(t.consumed[lead..]);
      && CarryFirst(read, s.generated, |read|)
      && HandleFirst(target, read, clock, |read|) == EffectOfFirst(target, s.generated, clock, |read|)
      && 0 <= |s.generated| - |read| <= t.count
  {
    DeliveriesCarry(t.Model(), lead, s.generated, s.encoded);
    var read := Read(t.consumed[lead..]);
    CarriedTakesEffect(target, s.generated, read, clock, |read|);
  }
}
