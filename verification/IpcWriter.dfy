/** Building an IPC command and writing it to thread-local storage: ipc.h, the ipcAdd and
    ipcSend builders and ipcPrepareHeader. */
module IpcWriter {
  import opened WireMemory
  import opened IpcWire

  /** The command being built: fixed lists of eight entries with counters. */
  class IpcCommand {
    var numSend: nat
    var numRecv: nat
    var numExch: nat
    var buffers: seq<BufferDesc>
    var numStaticIn: nat
    var numStaticOut: nat
    var statics: seq<StaticDesc>
    var sendPid: bool
    var numHandlesCopy: nat
    var numHandlesMove: nat
    var handles: seq<bv32>

    ghost predicate Valid()
      reads this
    {
      && |buffers| == |statics| == MAX_BUFFERS && |handles| == MAX_OBJECTS
      && numSend + numRecv + numExch <= MAX_BUFFERS
      && numStaticIn + numStaticOut <= MAX_BUFFERS
      && numHandlesCopy + numHandlesMove <= MAX_OBJECTS
    }

    /** The command as a value: the used parts of the lists. */
    function Value(): Command
      requires Valid()
      reads this
    {
      Command(numSend, numRecv, numExch, buffers[..numSend + numRecv + numExch],
              numStaticIn, numStaticOut, statics[..numStaticIn + numStaticOut],
              sendPid, numHandlesCopy, numHandlesMove, handles[..numHandlesCopy + numHandlesMove])
    }

    constructor ()
      ensures Valid()
      ensures Value() == Command(0, 0, 0, [], 0, 0, [], false, 0, 0, [])
    {
      numSend, numRecv, numExch := 0, 0, 0;
      buffers := seq(MAX_BUFFERS, _ => BufferDesc(0, 0, 0));
      numStaticIn, numStaticOut := 0, 0;
      statics := seq(MAX_BUFFERS, _ => StaticDesc(0, 0, 0));
      sendPid, numHandlesCopy, numHandlesMove := false, 0, 0;
      handles := seq(MAX_OBJECTS, _ => 0);
    }

    // Each adder writes at the end of its own group. That is the end of the used list
    // exactly when the groups are filled in order, and then nothing is overwritten.

    method AddSendBuffer(b: BufferDesc)
      requires Valid() && numSend + numRecv + numExch < MAX_BUFFERS
      modifies this`buffers, this`numSend
      ensures Valid() && numSend == old(numSend) + 1
      ensures buffers == old(buffers)[old(numSend) := b]
      ensures numRecv + numExch == 0 ==>
        Value() == old(Value()).(numSend := numSend, buffers := old(Value()).buffers + [b])
    {
      buffers := buffers[numSend := b];
      numSend := numSend + 1;
    }

    method AddRecvBuffer(b: BufferDesc)
      requires Valid() && numSend + numRecv + numExch < MAX_BUFFERS
      modifies this`buffers, this`numRecv
      ensures Valid() && numRecv == old(numRecv) + 1
      ensures buffers == old(buffers)[numSend + old(numRecv) := b]
      ensures numExch == 0 ==> Value() == old(Value()).(numRecv := numRecv, buffers := old(Value()).buffers + [b])
    {
      buffers := buffers[numSend + numRecv := b];
      numRecv := numRecv + 1;
    }

    method AddExchBuffer(b: BufferDesc)
      requires Valid() && numSend + numRecv + numExch < MAX_BUFFERS
      modifies this`buffers, this`numExch
      ensures Valid() && numExch == old(numExch) + 1
      ensures Value() == old(Value()).(numExch := numExch, buffers := old(Value()).buffers + [b])
    {
      buffers := buffers[numSend + numRecv + numExch := b];
      numExch := numExch + 1;
    }

    method AddSendStatic(s: StaticDesc)
      requires Valid() && numStaticIn + numStaticOut < MAX_BUFFERS
      modifies this`statics, this`numStaticIn
      ensures Valid() && numStaticIn == old(numStaticIn) + 1
      ensures statics == old(statics)[old(numStaticIn) := s]
      ensures numStaticOut == 0 ==> Value() == old(Value()).(numIn := numStaticIn, statics := old(Value()).statics + [s])
    {
      statics := statics[numStaticIn := s];
      numStaticIn := numStaticIn + 1;
    }

    method AddRecvStatic(s: StaticDesc)
      requires Valid() && numStaticIn + numStaticOut < MAX_BUFFERS
      modifies this`statics, this`numStaticOut
      ensures Valid() && numStaticOut == old(numStaticOut) + 1
      ensures statics == old(statics)[numStaticIn + old(numStaticOut) := s]
      ensures Value() == old(Value()).(numOut := numStaticOut, statics := old(Value()).statics + [s])
    {
      statics := statics[numStaticIn + numStaticOut := s];
      numStaticOut := numStaticOut + 1;
    }

    /** A small payload travels as a static, a large one as a buffer; the other half of
        the pair is empty. */
    method AddSendSmart(pointerBufferSize: bv64, addr: bv64, size: bv64, index: bv8)
      requires Valid() && numSend + numRecv + numExch < MAX_BUFFERS && numStaticIn + numStaticOut < MAX_BUFFERS
      modifies this`buffers, this`numSend, this`statics, this`numStaticIn
      ensures Valid() && numSend == old(numSend) + 1 && numStaticIn == old(numStaticIn) + 1
      ensures var small := pointerBufferSize != 0 && size <= pointerBufferSize;
              && buffers == old(buffers)[old(numSend) := if small then BufferDesc(0, 0, 0) else BufferDesc(addr, size, 0)]
              && statics == old(statics)[old(numStaticIn) := if small then StaticDesc(addr, size, index) else StaticDesc(0, 0, index)]
    {
      if pointerBufferSize != 0 && size <= pointerBufferSize {
        AddSendBuffer(BufferDesc(0, 0, 0));
        AddSendStatic(StaticDesc(addr, size, index));
      } else {
        AddSendBuffer(BufferDesc(addr, size, 0));
        AddSendStatic(StaticDesc(0, 0, index));
      }
    }

    method AddRecvSmart(pointerBufferSize: bv64, addr: bv64, size: bv64, index: bv8)
      requires Valid() && numSend + numRecv + numExch < MAX_BUFFERS && numStaticIn + numStaticOut < MAX_BUFFERS
      modifies this`buffers, this`numRecv, this`statics, this`numStaticOut
      ensures Valid() && numRecv == old(numRecv) + 1 && numStaticOut == old(numStaticOut) + 1
      ensures var small := pointerBufferSize != 0 && size <= pointerBufferSize;
              && buffers == old(buffers)[numSend + old(numRecv) := if small then BufferDesc(0, 0, 0) else BufferDesc(addr, size, 0)]
              && statics == old(statics)[numStaticIn + old(numStaticOut) := if small then StaticDesc(addr, size, index) else StaticDesc(0, 0, index)]
    {
      if pointerBufferSize != 0 && size <= pointerBufferSize {
        AddRecvBuffer(BufferDesc(0, 0, 0));
        AddRecvStatic(StaticDesc(addr, size, index));
      } else {
        AddRecvBuffer(BufferDesc(addr, size, 0));
        AddRecvStatic(StaticDesc(0, 0, index));
      }
    }

    method SendPid()
      requires Valid()
      modifies this`sendPid
      ensures Valid() && Value() == old(Value()).(sendPid := true)
    {
      sendPid := true;
    }

    method SendHandleCopy(h: bv32)
      requires Valid() && numHandlesCopy + numHandlesMove < MAX_OBJECTS
      modifies this`handles, this`numHandlesCopy
      ensures Valid() && numHandlesCopy == old(numHandlesCopy) + 1
      ensures handles == old(handles)[old(numHandlesCopy) := h]
      ensures numHandlesMove == 0 ==> Value() == old(Value()).(numCopy := numHandlesCopy, handles := old(Value()).handles + [h])
    {
      handles := handles[numHandlesCopy := h];
      numHandlesCopy := numHandlesCopy + 1;
    }

    method SendHandleMove(h: bv32)
      requires Valid() && numHandlesCopy + numHandlesMove < MAX_OBJECTS
      modifies this`handles, this`numHandlesMove
      ensures Valid() && numHandlesMove == old(numHandlesMove) + 1
      ensures Value() == old(Value()).(numMove := numHandlesMove, handles := old(Value()).handles + [h])
    {
      handles := handles[numHandlesCopy + numHandlesMove := h];
      numHandlesMove := numHandlesMove + 1;
    }
  }

  // ---- What the message holds -------------------------------------------------------

  ghost predicate TwoWords(s: Buffer, off: nat, a: bv32, b: bv32) {
    off + 8 <= |s| && Get32(s, off) == a && Get32(s, off + 4) == b
  }

  /** A send descriptor has its packed word first, a receive descriptor its address. */
  ghost predicate StaticAt(s: Buffer, off: nat, d: StaticDesc) {
    TwoWords(s, off, StaticPacked(d), Low32(d.addr))
  }

  ghost predicate BufferAt(s: Buffer, off: nat, b: BufferDesc) {
    TwoWords(s, off, Low32(b.size), Low32(b.addr)) && off + 12 <= |s| && Get32(s, off + 8) == BufferPacked(b)
  }

  ghost predicate LengthAt(s: Buffer, off: nat, d: StaticDesc) {
    off + 2 <= |s| && Get16(s, off) == ReceiveLength(d)
  }

  ghost predicate ReceiveAt(s: Buffer, off: nat, d: StaticDesc) {
    TwoWords(s, off, Low32(d.addr), ReceivePacked(d))
  }

  ghost predicate StaticsOn(s: Buffer, off: nat, ds: seq<StaticDesc>) {
    forall i :: 0 <= i < |ds| ==> StaticAt(s, off + 8 * i, ds[i])
  }

  ghost predicate BuffersOn(s: Buffer, off: nat, bs: seq<BufferDesc>) {
    forall i :: 0 <= i < |bs| ==> BufferAt(s, off + 12 * i, bs[i])
  }

  ghost predicate LengthsOn(s: Buffer, off: nat, ds: seq<StaticDesc>) {
    forall i :: 0 <= i < |ds| ==> LengthAt(s, off + 2 * i, ds[i])
  }

  ghost predicate ReceivesOn(s: Buffer, off: nat, ds: seq<StaticDesc>) {
    forall i :: 0 <= i < |ds| ==> ReceiveAt(s, off + 8 * i, ds[i])
  }

  /** Control words (without the size) and handles. */
  ghost predicate ControlOn(s: Buffer, c: Command, ctrl1: bv32)
    requires c.Shaped()
  {
    && StaticsAt(c) <= |s|
    && TwoWords(s, 0, Ctrl0(c), ctrl1)
    && (c.Special() ==> Get32(s, 8) == Ctrl2(c))
    && Words(s, HandlesAt(c), c.handles)
  }

  ghost predicate DescriptorsOn(s: Buffer, c: Command)
    requires c.Shaped()
  {
    && StaticsOn(s, StaticsAt(c), c.statics[..c.numIn])
    && BuffersOn(s, BuffersAt(c), c.buffers)
  }

  ghost predicate ReceiveListOn(s: Buffer, c: Command, rawSize: nat)
    requires c.Shaped()
  {
    && LengthsOn(s, LengthsAt(c, rawSize), c.statics[c.numIn..])
    && ReceivesOn(s, ReceivesAt(c, rawSize), c.statics[c.numIn..])
  }

  /** The whole message of a command. */
  ghost predicate OnWire(s: Buffer, c: Command, rawSize: nat)
    requires c.Shaped() && RawWords(c, rawSize) < 0x200
  {
    ControlOn(s, c, Ctrl1(c, RawWords(c, rawSize))) && DescriptorsOn(s, c) && ReceiveListOn(s, c, rawSize)
  }

  /** What a message says about output static i: its size, or 0 when it takes more than 16
      bits; and an entry that gives address and size back as far as they fit. */
  lemma ReceiveListMeans(s: Buffer, c: Command, rawSize: nat, i: nat) returns (length: bv32, addr: bv32, packed: bv32)
    requires c.Shaped() && ReceiveListOn(s, c, rawSize) && i < c.numOut
    ensures LengthsAt(c, rawSize) + 2 * i + 2 <= |s| && length == Get16(s, LengthsAt(c, rawSize) + 2 * i)
    ensures TwoWords(s, ReceivesAt(c, rawSize) + 8 * i, addr, packed)
    ensures length as bv64 == var size := c.statics[c.numIn + i].size; if size <= 0xFFFF then size else 0
    ensures var d := c.statics[c.numIn + i];
            d.size <= 0xFFFF && d.addr < 0x1_0000_0000_0000 ==>
              (packed >> 16) as bv64 == d.size && (addr as bv64) | (((packed & 0xFFFF) as bv64) << 32) == d.addr
  {
    length, addr, packed := ReceiveEntry(s, c, rawSize, i);
    var d := c.statics[c.numIn + i];
    LengthReads(d, length);
    if d.size <= 0xFFFF && d.addr < 0x1_0000_0000_0000 {
      EntryReads(d, addr, packed);
    }
  }

  lemma ReceiveEntry(s: Buffer, c: Command, rawSize: nat, i: nat) returns (length: bv32, addr: bv32, packed: bv32)
    requires c.Shaped() && ReceiveListOn(s, c, rawSize) && i < c.numOut
    ensures LengthsAt(c, rawSize) + 2 * i + 2 <= |s| && length == Get16(s, LengthsAt(c, rawSize) + 2 * i)
    ensures TwoWords(s, ReceivesAt(c, rawSize) + 8 * i, addr, packed)
    ensures var d := c.statics[c.numIn + i]; length == ReceiveLength(d) && addr == Low32(d.addr) && packed == ReceivePacked(d)
  {
    var d := c.statics[c.numIn..][i];
    assert LengthAt(s, LengthsAt(c, rawSize) + 2 * i, d);
    assert ReceiveAt(s, ReceivesAt(c, rawSize) + 8 * i, d);
    length, addr, packed := ReceiveLength(d), Low32(d.addr), ReceivePacked(d);
  }

  lemma LengthReads(d: StaticDesc, length: bv32)
    requires length == ReceiveLength(d)
    ensures length as bv64 == if d.size <= 0xFFFF then d.size else 0
  {
    LengthMeans(d);
  }

  lemma EntryReads(d: StaticDesc, addr: bv32, packed: bv32)
    requires addr == Low32(d.addr) && packed == ReceivePacked(d)
    requires d.size <= 0xFFFF && d.addr < 0x1_0000_0000_0000
    ensures (packed >> 16) as bv64 == d.size && (addr as bv64) | (((packed & 0xFFFF) as bv64) << 32) == d.addr
  {
    ReceiveRoundTrips(d);
  }

  // ---- Stores elsewhere keep what is there ------------------------------------------

  lemma ControlKept(before: Buffer, after: Buffer, lo: int, hi: int, c: Command, ctrl1: bv32)
    requires c.Shaped() && OnlyWithin(before, after, lo, hi) && StaticsAt(c) <= lo
    requires ControlOn(before, c, ctrl1)
    ensures ControlOn(after, c, ctrl1)
  {
    WordsKept(before, after, lo, hi, HandlesAt(c), c.handles);
  }

  lemma StaticsKept(before: Buffer, after: Buffer, lo: int, hi: int, off: nat, ds: seq<StaticDesc>)
    requires OnlyWithin(before, after, lo, hi) && (off + 8 * |ds| <= lo || hi <= off)
    requires StaticsOn(before, off, ds)
    ensures StaticsOn(after, off, ds)
  {
    forall i | 0 <= i < |ds|
      ensures StaticAt(after, off + 8 * i, ds[i])
    {
      assert StaticAt(before, off + 8 * i, ds[i]);
    }
  }

  lemma BuffersKept(before: Buffer, after: Buffer, lo: int, hi: int, off: nat, bs: seq<BufferDesc>)
    requires OnlyWithin(before, after, lo, hi) && (off + 12 * |bs| <= lo || hi <= off)
    requires BuffersOn(before, off, bs)
    ensures BuffersOn(after, off, bs)
  {
    forall i | 0 <= i < |bs|
      ensures BufferAt(after, off + 12 * i, bs[i])
    {
      assert BufferAt(before, off + 12 * i, bs[i]);
    }
  }

  lemma LengthsKept(before: Buffer, after: Buffer, lo: int, hi: int, off: nat, ds: seq<StaticDesc>)
    requires OnlyWithin(before, after, lo, hi) && (off + 2 * |ds| <= lo || hi <= off)
    requires LengthsOn(before, off, ds)
    ensures LengthsOn(after, off, ds)
  {
    forall i | 0 <= i < |ds|
      ensures LengthAt(after, off + 2 * i, ds[i])
    {
      assert LengthAt(before, off + 2 * i, ds[i]);
    }
  }

  lemma ReceivesKept(before: Buffer, after: Buffer, lo: int, hi: int, off: nat, ds: seq<StaticDesc>)
    requires OnlyWithin(before, after, lo, hi) && (off + 8 * |ds| <= lo || hi <= off)
    requires ReceivesOn(before, off, ds)
    ensures ReceivesOn(after, off, ds)
  {
    forall i | 0 <= i < |ds|
      ensures ReceiveAt(after, off + 8 * i, ds[i])
    {
      assert ReceiveAt(before, off + 8 * i, ds[i]);
    }
  }

  lemma DescriptorsKept(before: Buffer, after: Buffer, lo: int, hi: int, c: Command)
    requires c.Shaped() && OnlyWithin(before, after, lo, hi) && (DescriptorsEnd(c) <= lo || hi <= StaticsAt(c))
    requires DescriptorsOn(before, c)
    ensures DescriptorsOn(after, c)
  {
    StaticsKept(before, after, lo, hi, StaticsAt(c), c.statics[..c.numIn]);
    BuffersKept(before, after, lo, hi, BuffersAt(c), c.buffers);
  }

  lemma ReceiveListKept(before: Buffer, after: Buffer, lo: int, hi: int, c: Command, rawSize: nat)
    requires c.Shaped() && OnlyWithin(before, after, lo, hi)
    requires hi <= LengthsAt(c, rawSize) || MessageEnd(c, rawSize) <= lo
    requires ReceiveListOn(before, c, rawSize)
    ensures ReceiveListOn(after, c, rawSize)
  {
    LengthsKept(before, after, lo, hi, LengthsAt(c, rawSize), c.statics[c.numIn..]);
    ReceivesKept(before, after, lo, hi, ReceivesAt(c, rawSize), c.statics[c.numIn..]);
  }

  // ---- The writer -------------------------------------------------------------------

  method PutTwo(mem: array<bv8>, off: nat, a: bv32, b: bv32)
    requires off + 8 <= mem.Length
    modifies mem
    ensures TwoWords(mem[..], off, a, b)
    ensures OnlyWithin(old(mem[..]), mem[..], off, off + 8)
  {
    Put32(mem, off, a);
    Put32(mem, off + 4, b);
  }

  method PutWords(mem: array<bv8>, off: nat, ws: seq<bv32>)
    requires off + 4 * |ws| <= mem.Length
    modifies mem
    ensures Words(mem[..], off, ws)
    ensures OnlyWithin(old(mem[..]), mem[..], off, off + 4 * |ws|)
  {
    for i := 0 to |ws|
      invariant Words(mem[..], off, ws[..i])
      invariant OnlyWithin(old(mem[..]), mem[..], off, off + 4 * i)
    {
      ghost var before := mem[..];
      Put32(mem, off + 4 * i, ws[i]);
      WordsKept(before, mem[..], off + 4 * i, off + 4 * i + 4, off, ws[..i]);
      assert WordAt(mem[..], off, i, ws[i]);
      assert forall k :: 0 <= k < i ==> ws[..i + 1][k] == ws[..i][k];
    }
    assert ws[..|ws|] == ws;
  }

  method PutStatics(mem: array<bv8>, off: nat, ds: seq<StaticDesc>)
    requires off + 8 * |ds| <= mem.Length
    modifies mem
    ensures StaticsOn(mem[..], off, ds)
    ensures OnlyWithin(old(mem[..]), mem[..], off, off + 8 * |ds|)
  {
    for i := 0 to |ds|
      invariant StaticsOn(mem[..], off, ds[..i])
      invariant OnlyWithin(old(mem[..]), mem[..], off, off + 8 * i)
    {
      ghost var before := mem[..];
      PutTwo(mem, off + 8 * i, StaticPacked(ds[i]), Low32(ds[i].addr));
      StaticsKept(before, mem[..], off + 8 * i, off + 8 * i + 8, off, ds[..i]);
      assert forall k :: 0 <= k < i ==> ds[..i + 1][k] == ds[..i][k];
    }
    assert ds[..|ds|] == ds;
  }

  method PutBuffers(mem: array<bv8>, off: nat, bs: seq<BufferDesc>)
    requires off + 12 * |bs| <= mem.Length
    modifies mem
    ensures BuffersOn(mem[..], off, bs)
    ensures OnlyWithin(old(mem[..]), mem[..], off, off + 12 * |bs|)
  {
    for i := 0 to |bs|
      invariant BuffersOn(mem[..], off, bs[..i])
      invariant OnlyWithin(old(mem[..]), mem[..], off, off + 12 * i)
    {
      ghost var before := mem[..];
      PutTwo(mem, off + 12 * i, Low32(bs[i].size), Low32(bs[i].addr));
      Put32(mem, off + 12 * i + 8, BufferPacked(bs[i]));
      BuffersKept(before, mem[..], off + 12 * i, off + 12 * i + 12, off, bs[..i]);
      assert forall k :: 0 <= k < i ==> bs[..i + 1][k] == bs[..i][k];
    }
    assert bs[..|bs|] == bs;
  }

  method PutLengths(mem: array<bv8>, off: nat, ds: seq<StaticDesc>)
    requires off + 2 * |ds| <= mem.Length
    modifies mem
    ensures LengthsOn(mem[..], off, ds)
    ensures OnlyWithin(old(mem[..]), mem[..], off, off + 2 * |ds|)
  {
    for i := 0 to |ds|
      invariant LengthsOn(mem[..], off, ds[..i])
      invariant OnlyWithin(old(mem[..]), mem[..], off, off + 2 * i)
    {
      ghost var before := mem[..];
      Put16(mem, off + 2 * i, ReceiveLength(ds[i]));
      LengthsKept(before, mem[..], off + 2 * i, off + 2 * i + 2, off, ds[..i]);
      assert forall k :: 0 <= k < i ==> ds[..i + 1][k] == ds[..i][k];
    }
    assert ds[..|ds|] == ds;
  }

  method PutReceives(mem: array<bv8>, off: nat, ds: seq<StaticDesc>)
    requires off + 8 * |ds| <= mem.Length
    modifies mem
    ensures ReceivesOn(mem[..], off, ds)
    ensures OnlyWithin(old(mem[..]), mem[..], off, off + 8 * |ds|)
  {
    for i := 0 to |ds|
      invariant ReceivesOn(mem[..], off, ds[..i])
      invariant OnlyWithin(old(mem[..]), mem[..], off, off + 8 * i)
    {
      ghost var before := mem[..];
      PutTwo(mem, off + 8 * i, Low32(ds[i].addr), ReceivePacked(ds[i]));
      ReceivesKept(before, mem[..], off + 8 * i, off + 8 * i + 8, off, ds[..i]);
      assert forall k :: 0 <= k < i ==> ds[..i + 1][k] == ds[..i][k];
    }
    assert ds[..|ds|] == ds;
  }

  /** Control words and handles; the size is filled in later. The kernel fills in the
      eight bytes left for the PID. */
  method PutControl(mem: array<bv8>, c: Command)
    requires c.Shaped() && StaticsAt(c) <= mem.Length
    modifies mem
    ensures ControlOn(mem[..], c, Ctrl1Start(c))
    ensures OnlyWithin(old(mem[..]), mem[..], 0, StaticsAt(c))
  {
    PutTwo(mem, 0, Ctrl0(c), Ctrl1Start(c));
    if c.Special() {
      Put32(mem, 8, Ctrl2(c));
    }
    PutWords(mem, HandlesAt(c), c.handles);
  }

  method PutDescriptors(mem: array<bv8>, c: Command)
    requires c.Shaped() && DescriptorsEnd(c) <= mem.Length
    modifies mem
    ensures DescriptorsOn(mem[..], c)
    ensures OnlyWithin(old(mem[..]), mem[..], StaticsAt(c), DescriptorsEnd(c))
  {
    PutStatics(mem, StaticsAt(c), c.statics[..c.numIn]);
    ghost var before := mem[..];
    PutBuffers(mem, BuffersAt(c), c.buffers);
    StaticsKept(before, mem[..], BuffersAt(c), DescriptorsEnd(c), StaticsAt(c), c.statics[..c.numIn]);
  }

  method PutReceiveList(mem: array<bv8>, c: Command, rawSize: nat)
    requires c.Shaped() && MessageEnd(c, rawSize) <= mem.Length
    modifies mem
    ensures ReceiveListOn(mem[..], c, rawSize)
    ensures OnlyWithin(old(mem[..]), mem[..], LengthsAt(c, rawSize), MessageEnd(c, rawSize))
  {
    PutLengths(mem, LengthsAt(c, rawSize), c.statics[c.numIn..]);
    ghost var before := mem[..];
    PutReceives(mem, ReceivesAt(c, rawSize), c.statics[c.numIn..]);
    LengthsKept(before, mem[..], ReceivesAt(c, rawSize), MessageEnd(c, rawSize), LengthsAt(c, rawSize), c.statics[c.numIn..]);
  }

  /** *fill_in_size_later |= raw_size. */
  method FillInSize(mem: array<bv8>, size: bv32)
    requires 8 <= mem.Length
    modifies mem
    ensures Get32(mem[..], 4) == Get32(old(mem[..]), 4) | size
    ensures OnlyWithin(old(mem[..]), mem[..], 4, 8)
  {
    Put32(mem, 4, Get32(mem[..], 4) | size);
  }

  lemma ControlFilled(before: Buffer, after: Buffer, c: Command, rawWords: nat)
    requires c.Shaped() && rawWords < 0x200 && ControlOn(before, c, Ctrl1Start(c))
    requires OnlyWithin(before, after, 4, 8) && Get32(after, 4) == Ctrl1(c, rawWords)
    ensures ControlOn(after, c, Ctrl1(c, rawWords))
  {
    WordsKept(before, after, 4, 8, HandlesAt(c), c.handles);
    assert TwoWords(before, 0, Ctrl0(c), Ctrl1Start(c));
    assert Get32(after, 0) == Get32(before, 0);
  }

  /** Bytes between the descriptors and the receive list are not written. */
  ghost predicate RawAreaKept(before: Buffer, after: Buffer, c: Command, rawSize: nat) {
    |before| == |after| && forall k :: DescriptorsEnd(c) <= k < LengthsAt(c, rawSize) && k < |after| ==> after[k] == before[k]
  }

  method PutMessage(mem: array<bv8>, c: Command, rawSize: nat)
    requires c.Shaped() && MessageEnd(c, rawSize) <= mem.Length && RawWords(c, rawSize) < 0x200
    modifies mem
    ensures OnWire(mem[..], c, rawSize)
    ensures RawAreaKept(old(mem[..]), mem[..], c, rawSize)
    ensures OnlyWithin(old(mem[..]), mem[..], 0, MessageEnd(c, rawSize))
  {
    PutControl(mem, c);
    ghost var m1 := mem[..];
    PutDescriptors(mem, c);
    ghost var m2 := mem[..];
    ControlKept(m1, m2, StaticsAt(c), DescriptorsEnd(c), c, Ctrl1Start(c));
    PutReceiveList(mem, c, rawSize);
    ghost var m3 := mem[..];
    ControlKept(m2, m3, LengthsAt(c, rawSize), MessageEnd(c, rawSize), c, Ctrl1Start(c));
    DescriptorsKept(m2, m3, LengthsAt(c, rawSize), MessageEnd(c, rawSize), c);
    FillInSize(mem, (RawWords(c, rawSize) as bv9) as bv32);
    ControlFilled(m3, mem[..], c, RawWords(c, rawSize));
    DescriptorsKept(m3, mem[..], 4, 8, c);
    ReceiveListKept(m3, mem[..], 4, 8, c, rawSize);
  }

  /** Words of padding: ((16 - (buf & 15)) & 15) / 4. */
  method PadTo16(address: nat) returns (padding: nat)
    requires address % 4 == 0
    ensures Aligned16(address, address + 4 * padding)
  {
    var low := address % 16;
    assert low == 0 || low == 4 || low == 8 || low == 12;
    padding := (16 - low) % 16 / 4;
    assert padding == (if low == 0 then 0 else (16 - low) / 4);
    assert address == 16 * (address / 16) + low;
  }

  /** Writes the message of a command and returns where its raw data goes (as an offset;
      tls is the address of the buffer). */
  method PrepareHeader(cmd: IpcCommand, mem: array<bv8>, tls: nat, rawSize: nat) returns (raw: nat)
    requires cmd.Valid() && tls % 4 == 0
    requires MessageEnd(cmd.Value(), rawSize) <= mem.Length && RawWords(cmd.Value(), rawSize) < 0x200
    modifies mem
    ensures OnWire(mem[..], cmd.Value(), rawSize)
    ensures Aligned16(tls + DescriptorsEnd(cmd.Value()), tls + raw)
    // The raw area is untouched and lies between the descriptors and the receive list.
    ensures DescriptorsEnd(cmd.Value()) <= raw && raw + rawSize < LengthsAt(cmd.Value(), rawSize)
    ensures RawAreaKept(old(mem[..]), mem[..], cmd.Value(), rawSize)
    ensures OnlyWithin(old(mem[..]), mem[..], 0, MessageEnd(cmd.Value(), rawSize))
  {
    var c := cmd.Value();
    var padding := PadTo16(tls + DescriptorsEnd(c));
    raw := DescriptorsEnd(c) + 4 * padding;
    RawBeforeLengths(c, tls, raw, rawSize);
    PutMessage(mem, c, rawSize);
  }
}
