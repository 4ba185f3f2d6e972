/** Reading an IPC message back: ipc.h, ipcParse, and the round trip with the writer. */
module IpcParser {
  import opened WireMemory
  import opened IpcWire
  import opened IpcWriter

  datatype Direction = Send | Recv | Exch

  datatype Parsed = Parsed(commandType: bv32, hasPid: bool, pid: bv64,
                           handles: seq<bv32>, wasCopied: seq<bool>,
                           statics: seq<StaticDesc>, buffers: seq<BufferDesc>, directions: seq<Direction>,
                           numStaticsOut: nat, raw: nat, rawWithoutPadding: nat, rawSize: nat)

  /** The counts a message announces. */
  datatype Counts = Counts(commandType: bv32, special: bool, pid: bool, copy: nat, move: nat,
                           statics: nat, send: nat, recv: nat, exch: nat, out: nat, rawWords: nat)
  {
    function HandlesAt(): nat { if !special then 8 else if pid then 20 else 12 }
    function StaticsAt(): nat { HandlesAt() + 4 * (copy + move) }
    function BuffersAt(): nat { StaticsAt() + 8 * statics }
    function Buffers(): nat { send + recv + exch }
    function End(): nat { BuffersAt() + 12 * Buffers() }
  }

  function CountsOf(s: Buffer): Counts
    requires |s| >= 12
  {
    var ctrl0, ctrl1, ctrl2 := Get32(s, 0), Get32(s, 4), Get32(s, 8);
    var special := ctrl1 & 0x8000_0000 != 0;
    Counts(ctrl0 & 0xFFFF, special, special && ctrl2 & 1 != 0,
           if special then Nibble(ctrl2, 1) else 0, if special then Nibble(ctrl2, 5) else 0,
           Nibble(ctrl0, 16), Nibble(ctrl0, 20), Nibble(ctrl0, 24), Nibble(ctrl0, 28),
           OutCount(Nibble(ctrl1, 10)), RawWordsOf(ctrl1))
  }

  function Min(a: nat, b: nat): nat { if a < b then a else b }

  function DirectionOf(n: Counts, i: nat): Direction {
    if i < n.send then Send else if i < n.send + n.recv then Recv else Exch
  }

  function StaticIn(s: Buffer, off: nat): StaticDesc
    requires off + 8 <= |s|
  {
    StaticFrom(Get32(s, off + 4), Get32(s, off))
  }

  function BufferIn(s: Buffer, off: nat): BufferDesc
    requires off + 12 <= |s|
  {
    BufferFrom(Get32(s, off), Get32(s, off + 4), Get32(s, off + 8))
  }

  function PidIn(s: Buffer): bv64
    requires |s| >= 20
  {
    (Get32(s, 12) as bv64) | ((Get32(s, 16) as bv64) << 32)
  }

  /** The low word of the PID comes first. */
  lemma PidHalves(s: Buffer)
    requires |s| >= 20
    ensures PidIn(s) & 0xFFFF_FFFF == Get32(s, 12) as bv64 && PidIn(s) >> 32 == Get32(s, 16) as bv64
  {
    Halves(Get32(s, 12), Get32(s, 16));
  }

  lemma Halves(low: bv32, high: bv32)
    ensures var both := (low as bv64) | ((high as bv64) << 32);
            both & 0xFFFF_FFFF == low as bv64 && both >> 32 == high as bv64
  {
  }

  // Each part of a parsed message, in terms of the bytes it was read from.

  ghost predicate HandlesParsed(s: Buffer, n: Counts, r: Parsed)
    requires n.End() <= |s|
  {
    && |r.handles| == |r.wasCopied| == Min(n.copy + n.move, MAX_OBJECTS)
    && (forall i :: 0 <= i < |r.handles| ==> WordAt(s, n.HandlesAt(), i, r.handles[i]))
    && (forall i :: 0 <= i < |r.wasCopied| ==> r.wasCopied[i] == (i < n.copy))
  }

  ghost predicate StaticsParsed(s: Buffer, n: Counts, r: Parsed)
    requires n.End() <= |s|
  {
    && |r.statics| == Min(n.statics, MAX_BUFFERS)
    && forall i :: 0 <= i < |r.statics| ==> r.statics[i] == StaticIn(s, n.StaticsAt() + 8 * i)
  }

  ghost predicate BuffersParsed(s: Buffer, n: Counts, r: Parsed)
    requires n.End() <= |s|
  {
    && |r.buffers| == |r.directions| == Min(n.Buffers(), MAX_BUFFERS)
    && (forall i :: 0 <= i < |r.buffers| ==> r.buffers[i] == BufferIn(s, n.BuffersAt() + 12 * i))
    && (forall i :: 0 <= i < |r.directions| ==> r.directions[i] == DirectionOf(n, i))
  }

  ghost predicate ParsedWith(s: Buffer, tls: nat, n: Counts, r: Parsed)
    requires |s| >= 12
  {
    && n.End() <= |s|
    && HandlesParsed(s, n, r) && StaticsParsed(s, n, r) && BuffersParsed(s, n, r)
    && r.commandType == n.commandType
    && r.hasPid == n.pid && (n.pid ==> |s| >= 20 && r.pid == PidIn(s))
    && r.numStaticsOut == n.out
    && r.rawSize == 4 * n.rawWords
    && r.rawWithoutPadding == tls + n.End()
    && Aligned16(tls + n.End(), r.raw)
  }

  /** The source reads on without looking at the length of the buffer, so the announced
      descriptors must lie inside it. */
  method Parse(mem: array<bv8>, tls: nat) returns (r: Parsed)
    requires mem.Length >= 12 && CountsOf(mem[..]).End() <= mem.Length
    ensures ParsedWith(mem[..], tls, CountsOf(mem[..]), r)
  {
    r := ParseBody(mem, tls, CountsOf(mem[..]));
  }

  method ParseBody(mem: array<bv8>, tls: nat, n: Counts) returns (r: Parsed)
    requires mem.Length >= 12 && n.End() <= mem.Length && (n.pid ==> n.special)
    ensures ParsedWith(mem[..], tls, n, r)
  {
    var buf := if n.special then 12 else 8;
    var pid := 0;
    if n.pid {
      pid := PidIn(mem[..]);
      buf := 20;
    }
    var handles, wasCopied := ReadHandles(mem, buf, n);
    buf := buf + 4 * (n.copy + n.move);
    var statics := ReadStatics(mem, buf, Min(n.statics, MAX_BUFFERS));
    buf := buf + 8 * n.statics;
    var buffers, directions := ReadBuffers(mem, buf, n);
    var end := tls + buf + 12 * n.Buffers();
    var raw := RoundUp16(end);
    r := Parsed(n.commandType, n.pid, pid, handles, wasCopied, statics, buffers, directions,
                n.out, raw, end, 4 * n.rawWords);
  }

  /** (address + 15) & ~15. */
  method RoundUp16(address: nat) returns (raw: nat)
    ensures Aligned16(address, raw)
  {
    raw := Round16(address);
  }

  method ReadHandles(mem: array<bv8>, buf: nat, n: Counts) returns (handles: seq<bv32>, wasCopied: seq<bool>)
    requires buf + 4 * (n.copy + n.move) <= mem.Length
    ensures |handles| == |wasCopied| == Min(n.copy + n.move, MAX_OBJECTS)
    ensures forall i :: 0 <= i < |handles| ==> WordAt(mem[..], buf, i, handles[i])
    ensures forall i :: 0 <= i < |wasCopied| ==> wasCopied[i] == (i < n.copy)
  {
    handles, wasCopied := [], [];
    for i := 0 to Min(n.copy + n.move, MAX_OBJECTS)
      invariant |handles| == |wasCopied| == i
      invariant forall k :: 0 <= k < i ==> WordAt(mem[..], buf, k, handles[k]) && wasCopied[k] == (k < n.copy)
    {
      handles := handles + [Get32(mem[..], buf + 4 * i)];
      wasCopied := wasCopied + [i < n.copy];
    }
  }

  method ReadStatics(mem: array<bv8>, buf: nat, count: nat) returns (statics: seq<StaticDesc>)
    requires buf + 8 * count <= mem.Length
    ensures |statics| == count
    ensures forall i :: 0 <= i < count ==> statics[i] == StaticIn(mem[..], buf + 8 * i)
  {
    statics := [];
    for i := 0 to count
      invariant |statics| == i
      invariant forall k :: 0 <= k < i ==> statics[k] == StaticIn(mem[..], buf + 8 * k)
    {
      statics := statics + [StaticIn(mem[..], buf + 8 * i)];
    }
  }

  method ReadBuffers(mem: array<bv8>, buf: nat, n: Counts) returns (buffers: seq<BufferDesc>, directions: seq<Direction>)
    requires buf + 12 * n.Buffers() <= mem.Length
    ensures |buffers| == |directions| == Min(n.Buffers(), MAX_BUFFERS)
    ensures forall i :: 0 <= i < |buffers| ==> buffers[i] == BufferIn(mem[..], buf + 12 * i)
    ensures forall i :: 0 <= i < |directions| ==> directions[i] == DirectionOf(n, i)
  {
    buffers, directions := [], [];
    for i := 0 to Min(n.Buffers(), MAX_BUFFERS)
      invariant |buffers| == |directions| == i
      invariant forall k :: 0 <= k < i ==> buffers[k] == BufferIn(mem[..], buf + 12 * k)
      invariant forall k :: 0 <= k < i ==> directions[k] == DirectionOf(n, k)
    {
      buffers := buffers + [BufferIn(mem[..], buf + 12 * i)];
      if i < n.send {
        directions := directions + [Send];
      } else if i < n.send + n.recv {
        directions := directions + [Recv];
      } else {
        directions := directions + [Exch];
      }
    }
  }

  // ---- Round trip -------------------------------------------------------------------

  /** What the receiver must see of a command: the lists ... */
  ghost predicate RecoversLists(r: Parsed, c: Command) {
    && c.Shaped()
    && r.handles == c.handles && |r.wasCopied| == |c.handles|
    && (forall i :: 0 <= i < |r.wasCopied| ==> r.wasCopied[i] == (i < c.numCopy))
    && r.statics == c.statics[..c.numIn]
    && r.buffers == c.buffers && |r.directions| == |c.buffers|
    && (forall i :: 0 <= i < |r.directions| ==>
          r.directions[i] == if i < c.numSend then Send else if i < c.numSend + c.numRecv then Recv else Exch)
  }

  /** ... and the numbers: words of raw data and the address the writer put them at. */
  ghost predicate RecoversNumbers(r: Parsed, c: Command, words: nat, raw: nat) {
    && r.commandType == REQUEST
    && r.hasPid == c.sendPid
    && r.numStaticsOut == c.numOut
    && r.rawSize == 4 * words
    && r.raw == raw
  }

  ghost predicate Recovers(r: Parsed, c: Command, words: nat, raw: nat) {
    RecoversLists(r, c) && RecoversNumbers(r, c, words, raw)
  }

  /** The counts a command announces. */
  function Announced(c: Command, words: nat): Counts {
    Counts(REQUEST, c.Special(), c.sendPid, c.numCopy, c.numMove, c.numIn, c.numSend, c.numRecv, c.numExch,
           c.numOut, words)
  }

  lemma CountsRecovered(s: Buffer, c: Command, rawSize: nat)
    requires c.Shaped() && RawWords(c, rawSize) < 0x40 && |s| >= 12
    requires ControlOn(s, c, Ctrl1(c, RawWords(c, rawSize)))
    ensures CountsOf(s) == Announced(c, RawWords(c, rawSize))
  {
    Ctrl0RoundTrips(c);
    Ctrl1RoundTrips(c, RawWords(c, rawSize));
    Ctrl2RoundTrips(c);
    assert TwoWords(s, 0, Ctrl0(c), Ctrl1(c, RawWords(c, rawSize)));
  }

  lemma StaticsRecovered(s: Buffer, off: nat, ds: seq<StaticDesc>, parsed: seq<StaticDesc>)
    requires StaticsOn(s, off, ds) && off + 8 * |ds| <= |s| && |parsed| == |ds|
    requires forall i :: 0 <= i < |ds| ==> StaticFits(ds[i])
    requires forall i :: 0 <= i < |parsed| ==> parsed[i] == StaticIn(s, off + 8 * i)
    ensures parsed == ds
  {
    forall i | 0 <= i < |ds|
      ensures parsed[i] == ds[i]
    {
      assert StaticAt(s, off + 8 * i, ds[i]);
      StaticRoundTrips(ds[i]);
    }
  }

  lemma BuffersRecovered(s: Buffer, off: nat, bs: seq<BufferDesc>, parsed: seq<BufferDesc>)
    requires BuffersOn(s, off, bs) && off + 12 * |bs| <= |s| && |parsed| == |bs|
    requires forall i :: 0 <= i < |bs| ==> BufferFits(bs[i])
    requires forall i :: 0 <= i < |parsed| ==> parsed[i] == BufferIn(s, off + 12 * i)
    ensures parsed == bs
  {
    forall i | 0 <= i < |bs|
      ensures parsed[i] == bs[i]
    {
      assert BufferAt(s, off + 12 * i, bs[i]);
      BufferRoundTrips(bs[i]);
    }
  }

  lemma HandlesRecovered(s: Buffer, off: nat, ws: seq<bv32>, parsed: seq<bv32>)
    requires Words(s, off, ws) && |parsed| == |ws|
    requires forall i :: 0 <= i < |parsed| ==> WordAt(s, off, i, parsed[i])
    ensures parsed == ws
  {
    forall i | 0 <= i < |ws|
      ensures parsed[i] == ws[i]
    {
      assert WordAt(s, off, i, ws[i]) && WordAt(s, off, i, parsed[i]);
    }
  }

  /** The descriptors, read with the announced counts, are those of the command. */
  lemma ListsRoundTrip(s: Buffer, c: Command, n: Counts, r: Parsed)
    requires c.WellFormed() && n.End() <= |s|
    requires n.HandlesAt() == HandlesAt(c) && n.copy == c.numCopy && n.move == c.numMove
    requires n.statics == c.numIn && n.send == c.numSend && n.recv == c.numRecv && n.exch == c.numExch
    requires Words(s, HandlesAt(c), c.handles) && DescriptorsOn(s, c)
    requires HandlesParsed(s, n, r) && StaticsParsed(s, n, r) && BuffersParsed(s, n, r)
    ensures RecoversLists(r, c)
  {
    HandlesRecovered(s, HandlesAt(c), c.handles, r.handles);
    StaticsRecovered(s, StaticsAt(c), c.statics[..c.numIn], r.statics);
    BuffersRecovered(s, BuffersAt(c), c.buffers, r.buffers);
  }

  lemma LayoutsAgree(c: Command, words: nat)
    requires c.Shaped()
    ensures Announced(c, words).HandlesAt() == HandlesAt(c)
    ensures Announced(c, words).End() == DescriptorsEnd(c)
  {
  }

  /** The descriptors a written message announces lie inside the buffer. */
  lemma MessageInBounds(s: Buffer, c: Command, rawSize: nat)
    requires c.Shaped() && 12 <= |s| && MessageEnd(c, rawSize) <= |s| && RawWords(c, rawSize) < 0x40
    requires OnWire(s, c, rawSize)
    ensures CountsOf(s) == Announced(c, RawWords(c, rawSize))
    ensures CountsOf(s).End() == DescriptorsEnd(c) <= |s|
  {
    CountsRecovered(s, c, rawSize);
    LayoutsAgree(c, RawWords(c, rawSize));
  }

  /** Reading with the announced counts gives the command back. */
  lemma AnnouncedRoundTrip(s: Buffer, c: Command, words: nat, tls: nat, raw: nat, r: Parsed)
    requires c.WellFormed() && 12 <= |s| && Aligned16(tls + DescriptorsEnd(c), raw)
    requires Words(s, HandlesAt(c), c.handles) && DescriptorsOn(s, c)
    requires ParsedWith(s, tls, Announced(c, words), r)
    ensures Recovers(r, c, words, raw)
  {
    LayoutsAgree(c, words);
    ListsRoundTrip(s, c, Announced(c, words), r);
    AlignedIsUnique(tls + DescriptorsEnd(c), raw, r.raw);
  }

  /** ipcParse undoes ipcPrepareHeader for every well-formed command that fits the
      0x100-byte buffer. */
  lemma RoundTrip(s: Buffer, c: Command, rawSize: nat, tls: nat, raw: nat, r: Parsed)
    requires c.WellFormed() && |s| == 0x100 && MessageEnd(c, rawSize) <= 0x100
    requires RawWords(c, rawSize) < 0x40 && OnWire(s, c, rawSize)
    requires Aligned16(tls + DescriptorsEnd(c), raw)
    requires ParsedWith(s, tls, CountsOf(s), r)
    ensures Recovers(r, c, RawWords(c, rawSize), raw)
  {
    MessageInBounds(s, c, rawSize);
    AnnouncedRoundTrip(s, c, RawWords(c, rawSize), tls, raw, r);
  }

  /** A message of at most 0x100 bytes keeps its size in the field. */
  lemma SmallMessages(c: Command, rawSize: nat)
    requires MessageEnd(c, rawSize) <= 0x100
    ensures RawWords(c, rawSize) < 0x40
  {
  }
}
