/**
 Variable-set commands: the byte format the Linux side builds and the bare-metal
 side takes apart.  A packet is a 16-byte header and a list of commands, each a
 variable id, a type tag and a value of the width the tag says.
 */
module CommandCodec {
  import opened Bytes

  const VARIABLE_COUNT := 16
  const HEADER_SIZE := 16
  const BUFFER_SIZE := HEADER_SIZE + 32
  const SHUTDOWN_FLAGS := 0xDEAD

  datatype Kind = DoubleVar | FloatVar | ShortVar | ByteVar

  function Tag(k: Kind): Byte {
    match k case DoubleVar => 0 case FloatVar => 1 case ShortVar => 2 case ByteVar => 3
  }

  function Width(k: Kind): nat {
    match k case DoubleVar => 8 case FloatVar => 4 case ShortVar => 2 case ByteVar => 1
  }

  function KindOf(tag: nat): Kind
    requires tag < 4
  {
    if tag == 0 then DoubleVar else if tag == 1 then FloatVar else if tag == 2 then ShortVar else ByteVar
  }

  /** Sets one variable; the value is kept as the raw bytes that are copied. */
  datatype SetCommand = SetCommand(kind: Kind, id: Byte, value: Packet) {
    ghost predicate Valid() {
      id < VARIABLE_COUNT && |value| == Width(kind)
    }
  }

  datatype Command = Command(timestamp: nat, packetId: nat, flags: nat, sets: seq<SetCommand>) {
    ghost predicate Valid() {
      && timestamp < TWO_TO_64 && packetId < TWO_TO_16 && flags < TWO_TO_16 && |sets| < TWO_TO_16
      && forall i :: 0 <= i < |sets| ==> sets[i].Valid()
    }
  }

  // ------------------------------------------------------ little-endian numbers

  function Bytes256(n: nat): nat {
    if n == 0 then 1 else 256 * Bytes256(n - 1)
  }

  function ToLE(x: nat, n: nat): (s: seq<Byte>)
    ensures |s| == n
  {
    if n == 0 then [] else [x % 256] + ToLE(x / 256, n - 1)
  }

  function FromLE(s: seq<Byte>): nat {
    if s == [] then 0 else s[0] + 256 * FromLE(s[1..])
  }

  lemma {:induction false} LERoundTrip(x: nat, n: nat)
    requires x < Bytes256(n)
    ensures FromLE(ToLE(x, n)) == x
  {
    if n == 0 {
    } else {
      LERoundTrip(x / 256, n - 1);
      assert ToLE(x, n)[1..] == ToLE(x / 256, n - 1);
    }
  }

  lemma WordSizes()
    ensures Bytes256(2) == TWO_TO_16 && Bytes256(8) == TWO_TO_64
  {
    assert Bytes256(4) == 0x1_0000_0000;
  }

  // ---------------------------------------------------------------- encoding

  function EncodeSet(c: SetCommand): Packet {
    [c.id, Tag(c.kind)] + c.value
  }

  function EncodeSets(cs: seq<SetCommand>): Packet {
    if cs == [] then [] else EncodeSet(cs[0]) + EncodeSets(cs[1..])
  }

  /** The two padding bytes after the header fields are whatever the buffer held. */
  function Encode(c: Command, padding: Packet): Packet {
    ToLE(c.timestamp, 8) + ToLE(c.packetId, 2) + ToLE(c.flags, 2) + ToLE(|c.sets|, 2) + padding + EncodeSets(c.sets)
  }

  // ---------------------------------------------------------------- decoding

  /** The variable tables, as raw bytes. */
  datatype Variables = Variables(vd: seq<Packet>, vf: seq<Packet>, vs: seq<Packet>, vb: seq<Packet>) {
    ghost predicate Valid() {
      |vd| == |vf| == |vs| == |vb| == VARIABLE_COUNT
    }
  }

  function Store(v: Variables, kind: Kind, id: nat, value: Packet): (v': Variables)
    requires v.Valid() && id < VARIABLE_COUNT
    ensures v'.Valid()
  {
    match kind
    case DoubleVar => v.(vd := v.vd[id := value])
    case FloatVar => v.(vf := v.vf[id := value])
    case ShortVar => v.(vs := v.vs[id := value])
    case ByteVar => v.(vb := v.vb[id := value])
  }

  function ApplySets(v: Variables, cs: seq<SetCommand>): (v': Variables)
    requires v.Valid() && forall i :: 0 <= i < |cs| ==> cs[i].Valid()
    ensures v'.Valid()
    decreases |cs|
  {
    if cs == [] then v else assert cs[0].Valid(); ApplySets(Store(v, cs[0].kind, cs[0].id, cs[0].value), cs[1..])
  }

  /** The decoder does not check ids, tags or lengths; this is what it relies on for n commands from `at` on. */
  ghost predicate Decodable(data: Packet, at: nat, n: nat)
    decreases n
  {
    n == 0 ||
    (at + 2 <= |data| && data[at] < VARIABLE_COUNT && data[at + 1] < 4
     && at + 2 + Width(KindOf(data[at + 1])) <= |data|
     && Decodable(data, at + 2 + Width(KindOf(data[at + 1])), n - 1))
  }

  /** Variables and cursor after decoding n commands. */
  function Decode(v: Variables, data: Packet, at: nat, n: nat): (r: (Variables, nat))
    requires v.Valid() && Decodable(data, at, n)
    ensures r.0.Valid()
    decreases n
  {
    if n == 0 then (v, at)
    else
      var kind := KindOf(data[at + 1]);
      var end := at + 2 + Width(kind);
      Decode(Store(v, kind, data[at], data[at + 2..end]), data, end, n - 1)
  }

  lemma MiddleOf(a: Packet, b: Packet, c: Packet, k: nat)
    requires k <= |b|
    ensures (a + b + c)[|a| + k..|a| + |b|] == b[k..]
    ensures forall i :: 0 <= i < |b| ==> (a + b + c)[|a| + i] == b[i]
  {
  }

  lemma Regroup(a: Packet, b: Packet, c: Packet, d: Packet)
    ensures a + (b + c) + d == a + b + c + d
    ensures a + (b + c) + d == a + b + (c + d)
  {
  }

  /** Where the first command of an encoded list sits inside a packet. */
  lemma EncodedHead(before: Packet, cs: seq<SetCommand>, after: Packet)
    requires cs != [] && cs[0].Valid()
    ensures var data, c := before + EncodeSets(cs) + after, cs[0]; var end := |before| + 2 + Width(c.kind);
      && end <= |data|
      && data[|before|] == c.id && data[|before| + 1] == Tag(c.kind)
      && data[|before| + 2..end] == c.value
      && data == before + EncodeSet(c) + EncodeSets(cs[1..]) + after
      && |before + EncodeSet(c)| == end
  {
    var head, rest := EncodeSet(cs[0]), EncodeSets(cs[1..]);
    Regroup(before, head, rest, after);
    MiddleOf(before, head, rest + after, 2);
    assert head[0] == cs[0].id && head[1] == Tag(cs[0].kind) && head[2..] == cs[0].value;
  }

  /** Decoding a packet that starts with an encoded command stores that command and goes on behind it. */
  lemma DecodeHead(v: Variables, before: Packet, cs: seq<SetCommand>, after: Packet)
    requires v.Valid() && cs != [] && cs[0].Valid()
    ensures var data, end := before + EncodeSets(cs) + after, |before + EncodeSet(cs[0])|;
      && data == before + EncodeSet(cs[0]) + EncodeSets(cs[1..]) + after
      && (Decodable(data, end, |cs| - 1) ==>
            && Decodable(data, |before|, |cs|)
            && Decode(v, data, |before|, |cs|)
               == Decode(Store(v, cs[0].kind, cs[0].id, cs[0].value), data, end, |cs| - 1))
  {
    EncodedHead(before, cs, after);
  }

  /** Decoding what was encoded applies exactly those commands, in order, and stops exactly at their end. */
  lemma {:induction false} DecodeUndoesEncode(v: Variables, before: Packet, cs: seq<SetCommand>, after: Packet)
    requires v.Valid() && forall i :: 0 <= i < |cs| ==> cs[i].Valid()
    ensures var data := before + EncodeSets(cs) + after;
      && Decodable(data, |before|, |cs|)
      && Decode(v, data, |before|, |cs|) == (ApplySets(v, cs), |before| + |EncodeSets(cs)|)
    decreases |cs|
  {
    if cs == [] {
    } else {
      assert cs[0].Valid();
      DecodeHead(v, before, cs, after);
      DecodeUndoesEncode(Store(v, cs[0].kind, cs[0].id, cs[0].value), before + EncodeSet(cs[0]), cs[1..], after);
    }
  }

  // ------------------------------------------- what the commands do, entry by entry

  /** The value a list of commands leaves in the variable of this kind and id: that of the last one addressing it. */
  function LastValue(cs: seq<SetCommand>, kind: Kind, id: nat, was: Packet): Packet {
    if cs == [] then was
    else
      var c := cs[|cs| - 1];
      if c.kind == kind && c.id == id then c.value else LastValue(cs[..|cs| - 1], kind, id, was)
  }

  /** Each of the four tables holds at each id the value of the last command for it, and what it held before if there is none. */
  ghost predicate Holds(v': Variables, v: Variables, cs: seq<SetCommand>) {
    && |v'.vd| == |v.vd| && |v'.vf| == |v.vf| && |v'.vs| == |v.vs| && |v'.vb| == |v.vb|
    && (forall id :: 0 <= id < |v.vd| ==> v'.vd[id] == LastValue(cs, DoubleVar, id, v.vd[id]))
    && (forall id :: 0 <= id < |v.vf| ==> v'.vf[id] == LastValue(cs, FloatVar, id, v.vf[id]))
    && (forall id :: 0 <= id < |v.vs| ==> v'.vs[id] == LastValue(cs, ShortVar, id, v.vs[id]))
    && (forall id :: 0 <= id < |v.vb| ==> v'.vb[id] == LastValue(cs, ByteVar, id, v.vb[id]))
  }

  lemma {:induction false} LastValueFirst(cs: seq<SetCommand>, kind: Kind, id: nat, was: Packet)
    requires cs != []
    ensures LastValue(cs, kind, id, was)
      == LastValue(cs[1..], kind, id, if cs[0].kind == kind && cs[0].id == id then cs[0].value else was)
    decreases |cs|
  {
    if |cs| > 1 {
      LastValueFirst(cs[..|cs| - 1], kind, id, was);
      assert cs[..|cs| - 1][1..] == cs[1..][..|cs| - 2];
    }
  }

  lemma {:induction false} AppliedEntries(v: Variables, cs: seq<SetCommand>)
    requires v.Valid() && forall i :: 0 <= i < |cs| ==> cs[i].Valid()
    ensures Holds(ApplySets(v, cs), v, cs)
    decreases |cs|
  {
    if cs != [] {
      assert cs[0].Valid();
      AppliedEntries(Store(v, cs[0].kind, cs[0].id, cs[0].value), cs[1..]);
      forall kind: Kind, id: nat, was: Packet
        ensures LastValue(cs, kind, id, was)
          == LastValue(cs[1..], kind, id, if cs[0].kind == kind && cs[0].id == id then cs[0].value else was)
      {
        LastValueFirst(cs, kind, id, was);
      }
    }
  }

  /** Decoding what was encoded sets every variable to the value of the last command for it and leaves the others alone. */
  lemma DecodedEntries(v: Variables, before: Packet, cs: seq<SetCommand>, after: Packet)
    requires v.Valid() && forall i :: 0 <= i < |cs| ==> cs[i].Valid()
    ensures var data := before + EncodeSets(cs) + after;
      Decodable(data, |before|, |cs|) && Holds(Decode(v, data, |before|, |cs|).0, v, cs)
  {
    DecodeUndoesEncode(v, before, cs, after);
    AppliedEntries(v, cs);
  }

  // ------------------------------------------------------------ whole packets

  /** What the bare-metal side keeps of the commands it has handled; the 32-bit latency goes out with the statistics. */
  datatype Target = Target(
    vars: Variables,
    lastSetPacketId: nat,
    lastReceive: nat,
    lastSend: nat,
    commandPacketId: nat,
    commandLatency: nat,
    running: bool)

  ghost predicate DecodablePacket(data: Packet) {
    HEADER_SIZE <= |data| && Decodable(data, HEADER_SIZE, FromLE(data[12..14]))
  }

  function Handle(t: Target, data: Packet, receiveTime: nat): (t': Target)
    requires t.vars.Valid() && DecodablePacket(data)
    ensures t'.vars.Valid()
  {
    Target(Decode(t.vars, data, HEADER_SIZE, FromLE(data[12..14])).0,
           FromLE(data[8..10]), receiveTime, FromLE(data[0..8]),
           FromLE(data[8..10]), Low(receiveTime - FromLE(data[0..8])),
           t.running && FromLE(data[10..12]) != SHUTDOWN_FLAGS)
  }

  /** What a command is meant to do. */
  function Effect(t: Target, c: Command, receiveTime: nat): (t': Target)
    requires t.vars.Valid() && forall i :: 0 <= i < |c.sets| ==> c.sets[i].Valid()
    ensures t'.vars.Valid()
  {
    Target(ApplySets(t.vars, c.sets), c.packetId, receiveTime, c.timestamp, c.packetId, Low(receiveTime - c.timestamp),
           t.running && c.flags != SHUTDOWN_FLAGS)
  }

  lemma HeaderFields(c: Command, padding: Packet)
    requires c.Valid() && |padding| == 2
    ensures var data := Encode(c, padding);
      && HEADER_SIZE <= |data|
      && FromLE(data[0..8]) == c.timestamp && FromLE(data[8..10]) == c.packetId
      && FromLE(data[10..12]) == c.flags && FromLE(data[12..14]) == |c.sets|
  {
    var data := Encode(c, padding);
    WordSizes();
    assert data[0..8] == ToLE(c.timestamp, 8);
    assert data[8..10] == ToLE(c.packetId, 2);
    assert data[10..12] == ToLE(c.flags, 2);
    assert data[12..14] == ToLE(|c.sets|, 2);
    LERoundTrip(c.timestamp, 8);
    LERoundTrip(c.packetId, 2);
    LERoundTrip(c.flags, 2);
    LERoundTrip(|c.sets|, 2);
  }

  /** The bare-metal handler does to its state exactly what the Linux side's command says. */
  lemma HandleUndoesEncode(t: Target, c: Command, padding: Packet, receiveTime: nat)
    requires t.vars.Valid() && c.Valid() && |padding| == 2
    ensures DecodablePacket(Encode(c, padding))
    ensures Handle(t, Encode(c, padding), receiveTime) == Effect(t, c, receiveTime)
  {
    var data := Encode(c, padding);
    HeaderFields(c, padding);
    var header := data[..HEADER_SIZE];
    assert data == header + EncodeSets(c.sets) + [];
    DecodeUndoesEncode(t.vars, header, c.sets, []);
  }

  /** Entry by entry: what handling an encoded packet leaves in the variables, the time stamps and the running flag. */
  lemma HandledPacket(t: Target, c: Command, padding: Packet, receiveTime: nat)
    requires t.vars.Valid() && c.Valid() && |padding| == 2
    ensures DecodablePacket(Encode(c, padding))
    ensures var t' := Handle(t, Encode(c, padding), receiveTime);
      && Holds(t'.vars, t.vars, c.sets)
      && t'.lastSetPacketId == t'.commandPacketId == c.packetId
      && t'.lastReceive == receiveTime && t'.lastSend == c.timestamp
      && t'.commandLatency == (receiveTime - c.timestamp) % 0x1_0000_0000
      && (t'.running <==> t.running && c.flags != 0xDEAD)
  {
    HandleUndoesEncode(t, c, padding, receiveTime);
    AppliedEntries(t.vars, c.sets);
  }
}
