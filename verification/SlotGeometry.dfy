/**
 How the driver lays packet slots out in a mapped buffer: a header of eight bytes
 (size word and reserved word), the payload, and padding up to a cache line.
 The slot size is kept in a 16-bit field, so large configurations are truncated.
 */
module SlotGeometry {
  import opened Bytes
  import ModArith

  const HEADER_SIZE := 8
  const CACHE_LINE := 32
  const LARGEST_EXACT_PACKET := 65496

  /** `(max + sizeof(PacketHeader) + 31) & ~31u`, stored into a `uint16_t`. */
  function SlotSize(max: nat): nat
    requires max < TWO_TO_16
  {
    (max + HEADER_SIZE + (CACHE_LINE - 1)) / CACHE_LINE * CACHE_LINE % TWO_TO_16
  }

  ghost predicate IsLeastAlignedFit(size: nat, max: nat) {
    && size % CACHE_LINE == 0
    && max + HEADER_SIZE <= size
    && forall t: nat :: t % CACHE_LINE == 0 && max + HEADER_SIZE <= t ==> size <= t
  }

  /** The 16-bit slot size is the least cache-line multiple that holds a packet exactly up to 65496 bytes. */
  lemma SlotSizeIsLeastFit(max: nat)
    requires max < TWO_TO_16
    ensures IsLeastAlignedFit(SlotSize(max), max) <==> max <= LARGEST_EXACT_PACKET
  {
    var x := max + HEADER_SIZE + (CACHE_LINE - 1);
    var exact := x / CACHE_LINE * CACHE_LINE;
    forall t: nat | t % CACHE_LINE == 0 && max + HEADER_SIZE <= t
      ensures exact <= t
    {
      assert t == t / CACHE_LINE * CACHE_LINE;
    }
    if max <= LARGEST_EXACT_PACKET {
      assert SlotSize(max) == exact;
    }
  }

  /** Byte offset of slot i. */
  function Offset(stride: nat, i: nat): nat {
    stride * i
  }

  /** Slots follow each other without gaps, and each ends where the next begins. */
  lemma SlotsAreDisjoint(stride: nat, i: nat, j: nat)
    requires i < j
    ensures Offset(stride, i) + stride <= Offset(stride, j)
  {
    ModArith.ProductSign(stride, j - i);
    assert stride * j == stride * i + stride * (j - i);
  }

  lemma SlotIsInsideBuffer(stride: nat, i: nat, count: nat)
    requires i < count
    ensures Offset(stride, i) + stride <= stride * count
  {
    SlotsAreDisjoint(stride, i, count);
  }

  /** One tunnel of the driver's table: where its header and buffers start, and how many packets of which size they hold. */
  datatype TunnelConfig = TunnelConfig(control: nat, send: nat, receive: nat, max: nat, count: nat)

  const CONTROL_HEADER_SIZE := 64

  const TUNNELS: seq<TunnelConfig> := [
    TunnelConfig(0x3FFF_0000, 0x3FFF_0040, 0x3FFF_1100, 0x780, 2),
    TunnelConfig(0x3FFF_3000, 0x3FFF_3040, 0x3FFF_5100, 0x780, 4),
    TunnelConfig(0x3FFF_7200, 0x3FFF_7240, 0x3FFF_9800, 0x1200, 2),
    TunnelConfig(0xFFFF_0000, 0xFFFF_0040, 0xFFFF_1100, 0x780, 2),
    TunnelConfig(0xFFFF_3000, 0xFFFF_3040, 0xFFFF_5100, 0x780, 4),
    TunnelConfig(0xFFFF_7200, 0xFFFF_7240, 0xFFFF_9800, 0x1200, 2)]

  function BufferSize(t: TunnelConfig): nat
    requires t.max < TWO_TO_16
  {
    SlotSize(t.max) * t.count
  }

  /** In address order, no control header or ring buffer of the configured tunnels reaches into the next one. */
  lemma ConfiguredRingsAreDisjoint(i: nat)
    requires i < |TUNNELS|
    ensures var t := TUNNELS[i];
      && t.max <= LARGEST_EXACT_PACKET
      && t.control + CONTROL_HEADER_SIZE <= t.send
      && t.send + BufferSize(t) <= t.receive
      && (i + 1 < |TUNNELS| ==> t.receive + BufferSize(t) <= TUNNELS[i + 1].control)
  {
    assert SlotSize(0x780) == 0x7A0 && SlotSize(0x1200) == 0x1220;
    assert i == 0 || i == 1 || i == 2 || i == 3 || i == 4 || i == 5;
  }

  /** Every byte a packet of accepted length touches in slot i is inside the mapping and outside every other slot. */
  lemma AcceptedWriteStaysInSlot(max: nat, count: nat, i: nat, len: nat, at: nat)
    requires max <= LARGEST_EXACT_PACKET
    requires i < count && len <= max && at < HEADER_SIZE + len
    ensures Offset(SlotSize(max), i) + at < SlotSize(max) * count
    ensures forall j: nat :: j < count && j != i ==>
      !(Offset(SlotSize(max), j) <= Offset(SlotSize(max), i) + at < Offset(SlotSize(max), j) + SlotSize(max))
  {
    var stride := SlotSize(max);
    SlotSizeIsLeastFit(max);
    SlotIsInsideBuffer(stride, i, count);
    forall j: nat | j < count && j != i
      ensures !(Offset(stride, j) <= Offset(stride, i) + at < Offset(stride, j) + stride)
    {
      if j < i {
        SlotsAreDisjoint(stride, j, i);
      } else {
        SlotsAreDisjoint(stride, i, j);
      }
    }
  }
}
