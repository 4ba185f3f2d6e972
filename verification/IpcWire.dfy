/** The IPC message format of ipc.h: the layout of descriptors, and the bit fields of the
    control words and of each descriptor, with their inverses. */
module IpcWire {
  import opened WireMemory

  const MAX_BUFFERS: nat := 8
  const MAX_OBJECTS: nat := 8
  const REQUEST: bv32 := 4

  datatype StaticDesc = StaticDesc(addr: bv64, size: bv64, index: bv8)
  datatype BufferDesc = BufferDesc(addr: bv64, size: bv64, kind: bv32)

  /** An IpcCommand: send, receive and exchange buffers in one list in this order, input
      statics before output statics, copied handles before moved ones. */
  datatype Command = Command(numSend: nat, numRecv: nat, numExch: nat, buffers: seq<BufferDesc>,
                             numIn: nat, numOut: nat, statics: seq<StaticDesc>,
                             sendPid: bool, numCopy: nat, numMove: nat, handles: seq<bv32>)
  {
    ghost predicate Shaped() {
      && |buffers| == numSend + numRecv + numExch <= MAX_BUFFERS
      && |statics| == numIn + numOut <= MAX_BUFFERS
      && |handles| == numCopy + numMove <= MAX_OBJECTS
    }

    /** Every value fits the field it is packed into. */
    ghost predicate WellFormed() {
      && Shaped()
      && (forall i :: 0 <= i < |buffers| ==> BufferFits(buffers[i]))
      && (forall i :: 0 <= i < numIn ==> StaticFits(statics[i]))
    }

    predicate Special() { sendPid || numCopy > 0 || numMove > 0 }
  }

  predicate BufferFits(b: BufferDesc) {
    b.addr < 0x100_0000_0000 && b.size < 0x1_0000_0000 && b.kind < 4
  }

  predicate StaticFits(s: StaticDesc) {
    s.addr < 0x100_0000_0000 && s.size < 0x1_0000 && s.index < 64
  }

  // ---- Layout, in bytes from the start of the message -------------------------------

  function HandlesAt(c: Command): nat { if !c.Special() then 8 else if c.sendPid then 20 else 12 }

  function StaticsAt(c: Command): nat { HandlesAt(c) + 4 * |c.handles| }

  function BuffersAt(c: Command): nat { StaticsAt(c) + 8 * c.numIn }

  function DescriptorsEnd(c: Command): nat { BuffersAt(c) + 12 * |c.buffers| }

  /** raw is the first 16-byte boundary at or after an address. */
  ghost predicate Aligned16(address: nat, raw: nat) {
    raw % 16 == 0 && address <= raw < address + 16
  }

  function Round16(address: nat): (raw: nat)
    ensures Aligned16(address, raw)
  {
    (address + 15) / 16 * 16
  }

  lemma AlignedIsUnique(address: nat, a: nat, b: nat)
    requires Aligned16(address, a) && Aligned16(address, b)
    ensures a == b
  {
  }

  function LengthsAt(c: Command, rawSize: nat): nat { DescriptorsEnd(c) + 4 * (rawSize / 4 + 4) }

  function LengthWords(c: Command): nat { (2 * c.numOut + 3) / 4 }

  function ReceivesAt(c: Command, rawSize: nat): nat { LengthsAt(c, rawSize) + 4 * LengthWords(c) }

  function MessageEnd(c: Command, rawSize: nat): nat { ReceivesAt(c, rawSize) + 8 * c.numOut }

  function RawWords(c: Command, rawSize: nat): nat { rawSize / 4 + 4 + LengthWords(c) }

  /** The raw data never reaches the receive-length list, whatever the padding. */
  lemma RawBeforeLengths(c: Command, tls: nat, raw: nat, rawSize: nat)
    requires tls % 4 == 0 && Aligned16(tls + DescriptorsEnd(c), tls + raw)
    ensures DescriptorsEnd(c) <= raw && raw + rawSize < LengthsAt(c, rawSize)
  {
    assert raw - DescriptorsEnd(c) <= 12;
  }

  /** The layout in numbers: two control words, a third one with the PID if they are there,
      the handles, the descriptors, the raw data with 16 bytes for its alignment, one
      halfword per output static rounded up to words, and their receive entries. The size
      field counts everything from the raw data to the receive entries. */
  lemma Layout(c: Command, rawSize: nat)
    requires c.Shaped()
    ensures HandlesAt(c) == 8 + (if c.sendPid || c.numCopy > 0 || c.numMove > 0 then 4 else 0) + (if c.sendPid then 8 else 0)
    ensures StaticsAt(c) == HandlesAt(c) + 4 * c.numCopy + 4 * c.numMove
    ensures BuffersAt(c) == StaticsAt(c) + 8 * c.numIn
    ensures DescriptorsEnd(c) == BuffersAt(c) + 12 * (c.numSend + c.numRecv + c.numExch)
    ensures DescriptorsEnd(c) + rawSize + 12 < LengthsAt(c, rawSize) <= DescriptorsEnd(c) + rawSize + 16
    ensures (LengthsAt(c, rawSize) - DescriptorsEnd(c)) % 4 == 0
    ensures 2 * c.numOut <= ReceivesAt(c, rawSize) - LengthsAt(c, rawSize) < 2 * c.numOut + 4
    ensures ReceivesAt(c, rawSize) == DescriptorsEnd(c) + 4 * RawWords(c, rawSize)
    ensures MessageEnd(c, rawSize) == ReceivesAt(c, rawSize) + 8 * c.numOut
  {
  }

  // ---- Control words ----------------------------------------------------------------

  /** A count as the 4-bit field it is stored in. */
  function Field(n: nat): bv32
    requires n < 16
  {
    (n as bv4) as bv32
  }

  /** (w >> shift) & 15 as a number. */
  function Nibble(w: bv32, shift: nat): nat
    requires shift < 32
  {
    ((w >> shift) & 15) as bv4 as nat
  }

  function Ctrl0(c: Command): bv32
    requires c.Shaped()
  {
    REQUEST | (Field(c.numIn) << 16) | (Field(c.numSend) << 20) | (Field(c.numRecv) << 24) | (Field(c.numExch) << 28)
  }

  /** The biased number of output statics and the flag for the optional part. */
  function Ctrl1Start(c: Command): bv32
    requires c.Shaped()
  {
    (if c.numOut > 0 then Field(c.numOut + 2) << 10 else 0) | (if c.Special() then 0x8000_0000 else 0)
  }

  function Ctrl1(c: Command, rawWords: nat): bv32
    requires c.Shaped() && rawWords < 0x200
  {
    Ctrl1Start(c) | ((rawWords as bv9) as bv32)
  }

  function Ctrl2(c: Command): bv32
    requires c.Shaped()
  {
    (if c.sendPid then 1 else 0) | (Field(c.numCopy) << 1) | (Field(c.numMove) << 5)
  }

  function RawWordsOf(ctrl1: bv32): nat { (ctrl1 & 0x1FF) as bv9 as nat }

  /** The output-static count behind its bias of two. */
  function OutCount(n: nat): nat {
    var once := if n >= 2 then n - 1 else n;
    if once >= 2 then once - 1 else once
  }

  lemma Ctrl0Bits(x: bv4, s: bv4, r: bv4, e: bv4)
    ensures var w := REQUEST | ((x as bv32) << 16) | ((s as bv32) << 20) | ((r as bv32) << 24) | ((e as bv32) << 28);
            && w & 0xFFFF == REQUEST && ((w >> 16) & 15) as bv4 == x && ((w >> 20) & 15) as bv4 == s
            && ((w >> 24) & 15) as bv4 == r && ((w >> 28) & 15) as bv4 == e
  {
  }

  lemma Ctrl1Bits(o: bv4, special: bv32, n: bv9)
    requires special == 0 || special == 0x8000_0000
    ensures var w := ((o as bv32) << 10) | special | (n as bv32);
            (w & 0x1FF) as bv9 == n && ((w >> 10) & 15) as bv4 == o && w & 0x8000_0000 == special
  {
  }

  lemma Ctrl2Bits(p: bv32, c: bv4, m: bv4)
    requires p < 2
    ensures var w := p | ((c as bv32) << 1) | ((m as bv32) << 5);
            w & 1 == p && ((w >> 1) & 15) as bv4 == c && ((w >> 5) & 15) as bv4 == m
  {
  }

  lemma CountBack(n: nat)
    requires n < 16
    ensures (n as bv4) as nat == n
  {
  }

  lemma SizeBack(n: nat)
    requires n < 0x40
    ensures (n as bv9) as nat == n
  {
  }

  /** All counts of a command can be read back from its control words. */
  lemma Ctrl0RoundTrips(c: Command)
    requires c.Shaped()
    ensures Ctrl0(c) & 0xFFFF == REQUEST
    ensures Nibble(Ctrl0(c), 16) == c.numIn && Nibble(Ctrl0(c), 20) == c.numSend
    ensures Nibble(Ctrl0(c), 24) == c.numRecv && Nibble(Ctrl0(c), 28) == c.numExch
  {
    CountBack(c.numIn);
    CountBack(c.numSend);
    CountBack(c.numRecv);
    CountBack(c.numExch);
    Ctrl0Bits(c.numIn as bv4, c.numSend as bv4, c.numRecv as bv4, c.numExch as bv4);
  }

  lemma Ctrl1RoundTrips(c: Command, rawWords: nat)
    requires c.Shaped() && rawWords < 0x40
    ensures RawWordsOf(Ctrl1(c, rawWords)) == rawWords == (Ctrl1(c, rawWords) & 0x1FF) as bv9 as nat
    ensures Nibble(Ctrl1(c, rawWords), 10) == if c.numOut == 0 then 0 else c.numOut + 2
    ensures OutCount(Nibble(Ctrl1(c, rawWords), 10)) == c.numOut
    ensures Ctrl1(c, rawWords) & 0x8000_0000 != 0 <==> c.Special()
  {
    CountBack(c.numOut + 2);
    SizeBack(rawWords);
    Ctrl1Bits(if c.numOut > 0 then (c.numOut + 2) as bv4 else 0, if c.Special() then 0x8000_0000 else 0, rawWords as bv9);
  }

  lemma Ctrl2RoundTrips(c: Command)
    requires c.Shaped()
    ensures Ctrl2(c) & 1 != 0 <==> c.sendPid
    ensures Nibble(Ctrl2(c), 1) == c.numCopy && Nibble(Ctrl2(c), 5) == c.numMove
  {
    CountBack(c.numCopy);
    CountBack(c.numMove);
    Ctrl2Bits(if c.sendPid then 1 else 0, c.numCopy as bv4, c.numMove as bv4);
  }

  // ---- Descriptors ------------------------------------------------------------------

  function Low32(x: bv64): bv32 { (x & 0xFFFF_FFFF) as bv32 }

  function StaticPacked(s: StaticDesc): bv32 {
    (s.index as bv32) | Low32(s.size << 16) | Low32(((s.addr >> 32) & 15) << 12) | Low32(((s.addr >> 36) & 15) << 6)
  }

  function StaticFrom(addr: bv32, packed32: bv32): StaticDesc {
    var packed := packed32 as bv64;
    StaticDesc((addr as bv64) | (((packed >> 12) & 15) << 32) | (((packed >> 6) & 15) << 36),
               packed >> 16, (packed & 63) as bv8)
  }

  lemma StaticRoundTrips(s: StaticDesc)
    requires StaticFits(s)
    ensures StaticFrom(Low32(s.addr), StaticPacked(s)) == s
  {
  }

  function BufferPacked(b: BufferDesc): bv32 {
    b.kind | Low32(((b.addr >> 32) & 15) << 28) | Low32((b.addr >> 36) << 2)
  }

  function BufferFrom(size: bv32, addr: bv32, packed32: bv32): BufferDesc {
    var packed := packed32 as bv64;
    BufferDesc((addr as bv64) | ((packed >> 28) << 32) | (((packed >> 2) & 15) << 36), size as bv64, packed32 & 3)
  }

  lemma BufferRoundTrips(b: BufferDesc)
    requires BufferFits(b)
    ensures BufferFrom(Low32(b.size), Low32(b.addr), BufferPacked(b)) == b
  {
  }

  /** The fields of the packed words by position. */
  lemma StaticFields(s: StaticDesc)
    requires StaticFits(s)
    ensures var packed := StaticPacked(s) as bv64;
            && packed & 63 == s.index as bv64 && (packed >> 6) & 15 == s.addr >> 36
            && (packed >> 12) & 15 == (s.addr >> 32) & 15 && packed >> 16 == s.size
    ensures Low32(s.addr) as bv64 == s.addr & 0xFFFF_FFFF
  {
  }

  lemma BufferFields(b: BufferDesc)
    requires BufferFits(b)
    ensures var packed := BufferPacked(b) as bv64;
            && packed & 3 == b.kind as bv64 && (packed >> 2) & 15 == b.addr >> 36 && packed >> 28 == (b.addr >> 32) & 15
    ensures Low32(b.addr) as bv64 == b.addr & 0xFFFF_FFFF && Low32(b.size) as bv64 == b.size
  {
  }

  /** Receive-list entries keep 48 address bits and 16 size bits. */
  function ReceivePacked(s: StaticDesc): bv32 { Low32(s.addr >> 32) | Low32(s.size << 16) }

  function ReceiveLength(s: StaticDesc): bv32 { if s.size > 0xFFFF then 0 else Low32(s.size) }

  lemma ReceiveRoundTrips(s: StaticDesc)
    requires s.addr < 0x1_0000_0000_0000 && s.size < 0x1_0000
    ensures (Low32(s.addr) as bv64) | (((ReceivePacked(s) & 0xFFFF) as bv64) << 32) == s.addr
    ensures (ReceivePacked(s) >> 16) as bv64 == s.size
  {
  }

  /** A length that does not fit 16 bits is written as 0. */
  lemma LengthMeans(s: StaticDesc)
    ensures ReceiveLength(s) as bv64 == if s.size <= 0xFFFF then s.size else 0
  {
  }
}
