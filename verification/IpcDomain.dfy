/** Domain messages: ipc.h, ipcPrepareHeaderForDomain and ipcParseDomainRequest. The
    domain header and the object ids travel inside the raw data of a plain message. */
module IpcDomain {
  import opened WireMemory
  import opened IpcWire
  import opened IpcWriter
  import opened IpcParser

  const HEADER: nat := 16
  const SEND_MESSAGE: bv8 := 1
  const CLOSE: bv8 := 2

  datatype Domain = Domain(message: bv8, objectId: bv32, objectIds: seq<bv32>)

  datatype Outcome = DomainOk(parsed: Parsed, domain: Domain) | UnknownType | TooManyObjectIds

  function TotalRaw(rawSize: nat, ids: seq<bv32>): nat { rawSize + HEADER + 4 * |ids| }

  function LengthIn(s: Buffer, raw: nat): nat
    requires raw + 4 <= |s|
  {
    Half(Get16(s, raw + 2))
  }

  function Half(w: bv32): nat { (w & 0xFFFF) as bv16 as nat }

  function CountIn(s: Buffer, raw: nat): nat
    requires raw + 2 <= |s|
  {
    s[raw + 1] as nat
  }

  /** Domain header at raw, object ids behind the payload (not aligned). */
  ghost predicate DomainOn(s: Buffer, raw: nat, rawSize: nat, objectId: bv32, ids: seq<bv32>) {
    && raw + TotalRaw(rawSize, ids) <= |s|
    && s[raw] == SEND_MESSAGE
    && CountIn(s, raw) == |ids| && LengthIn(s, raw) == rawSize
    && Get32(s, raw + 4) == objectId && Get32(s, raw + 8) == 0 && Get32(s, raw + 12) == 0
    && Words(s, raw + HEADER + rawSize, ids)
  }

  /** The domain header byte by byte: type, number of ids, the payload's length with its low
      byte first; and where the ids stand. */
  lemma HeaderBytes(s: Buffer, raw: nat, rawSize: nat, objectId: bv32, ids: seq<bv32>, i: nat)
    requires DomainOn(s, raw, rawSize, objectId, ids) && i < |ids|
    ensures TotalRaw(rawSize, ids) == 16 + rawSize + 4 * |ids| <= |s| - raw
    ensures s[raw] == 1 && s[raw + 1] as nat == |ids| 
    ensures ((s[raw + 2] as bv16) | ((s[raw + 3] as bv16) << 8)) as nat == rawSize
    ensures Get32(s, raw + 4) == objectId && Get32(s, raw + 16 + rawSize + 4 * i) == ids[i]
  {
    LengthBytes(s, raw);
    assert WordAt(s, raw + HEADER + rawSize, i, ids[i]);
  }

  lemma LengthBytes(s: Buffer, raw: nat)
    requires raw + 4 <= |s|
    ensures LengthIn(s, raw) == ((s[raw + 2] as bv16) | ((s[raw + 3] as bv16) << 8)) as nat
  {
    HalfwordBits(s[raw + 2], s[raw + 3]);
  }

  lemma HalfwordBits(a: bv8, b: bv8)
    ensures (Join(a, b, 0, 0) & 0xFFFF) as bv16 == (a as bv16) | ((b as bv16) << 8)
  {
  }

  lemma LengthBack(n: nat)
    requires n < 0x100
    ensures (n as bv16) as bv32 <= 0xFFFF
    ensures (((n as bv16) as bv32) & 0xFFFF) as bv16 as nat == n
  {
    LengthBackBits(n as bv8);
  }

  lemma LengthBackBits(n: bv8)
    ensures (((n as bv16) as bv32) & 0xFFFF) as bv16 == n as bv16
  {
  }

  method PutDomainHeader(mem: array<bv8>, raw: nat, rawSize: nat, objectId: bv32, count: nat)
    requires raw + HEADER <= mem.Length && rawSize < 0x100 && count <= MAX_OBJECTS
    modifies mem
    ensures mem[raw] == SEND_MESSAGE && CountIn(mem[..], raw) == count && LengthIn(mem[..], raw) == rawSize
    ensures Get32(mem[..], raw + 4) == objectId && Get32(mem[..], raw + 8) == 0 && Get32(mem[..], raw + 12) == 0
    ensures OnlyWithin(old(mem[..]), mem[..], raw, raw + HEADER)
  {
    LengthBack(rawSize);
    Put8(mem, raw, SEND_MESSAGE);
    Put8(mem, raw + 1, count as bv8);
    Put16(mem, raw + 2, (rawSize as bv16) as bv32);
    Put32(mem, raw + 4, objectId);
    Put32(mem, raw + 8, 0);
    Put32(mem, raw + 12, 0);
  }

  /** Header in front of the payload, object ids behind it; the payload is left alone. */
  method PutDomain(mem: array<bv8>, raw: nat, rawSize: nat, objectId: bv32, ids: seq<bv32>)
    requires raw + TotalRaw(rawSize, ids) <= mem.Length <= 0x100 && |ids| <= MAX_OBJECTS
    modifies mem
    ensures DomainOn(mem[..], raw, rawSize, objectId, ids)
    ensures OnlyWithin(old(mem[..]), mem[..], raw, raw + TotalRaw(rawSize, ids))
    ensures mem[raw + HEADER..raw + HEADER + rawSize] == old(mem[raw + HEADER..raw + HEADER + rawSize])
  {
    PutDomainHeader(mem, raw, rawSize, objectId, |ids|);
    PutWords(mem, raw + HEADER + rawSize, ids);
  }

  method PrepareHeaderForDomain(cmd: IpcCommand, ids: seq<bv32>, mem: array<bv8>, tls: nat, rawSize: nat, objectId: bv32)
    returns (raw: nat, payload: nat)
    requires cmd.Valid() && tls % 4 == 0 && |ids| <= MAX_OBJECTS && mem.Length == 0x100
    requires MessageEnd(cmd.Value(), TotalRaw(rawSize, ids)) <= 0x100
    modifies mem
    ensures RawWords(cmd.Value(), TotalRaw(rawSize, ids)) < 0x40
    ensures OnWire(mem[..], cmd.Value(), TotalRaw(rawSize, ids))
    ensures Aligned16(tls + DescriptorsEnd(cmd.Value()), tls + raw) && payload == raw + HEADER
    ensures DomainOn(mem[..], raw, rawSize, objectId, ids)
  {
    ghost var c := cmd.Value();
    SmallMessages(c, TotalRaw(rawSize, ids));
    raw := PrepareHeader(cmd, mem, tls, TotalRaw(rawSize, ids));
    ghost var message := mem[..];
    PutDomain(mem, raw, rawSize, objectId, ids);
    RawWritesKeepMessage(message, mem[..], c, raw, TotalRaw(rawSize, ids));
    payload := raw + HEADER;
  }

  /** Writing inside the raw area keeps the message. */
  lemma RawWritesKeepMessage(before: Buffer, after: Buffer, c: Command, raw: nat, rawSize: nat)
    requires c.Shaped() && RawWords(c, rawSize) < 0x200 && OnWire(before, c, rawSize)
    requires DescriptorsEnd(c) <= raw && raw + rawSize < LengthsAt(c, rawSize)
    requires OnlyWithin(before, after, raw, raw + rawSize)
    ensures OnWire(after, c, rawSize)
  {
    ControlKept(before, after, raw, raw + rawSize, c, Ctrl1(c, RawWords(c, rawSize)));
    DescriptorsKept(before, after, raw, raw + rawSize, c);
    ReceiveListKept(before, after, raw, raw + rawSize, c, rawSize);
  }

  ghost predicate DomainParsed(s: Buffer, tls: nat, parsed: Parsed, r: Outcome)
    requires tls <= parsed.raw && parsed.raw - tls + HEADER <= |s|
  {
    var raw := parsed.raw - tls;
    if s[raw] != SEND_MESSAGE && s[raw] != CLOSE then r == UnknownType
    else if raw + HEADER + LengthIn(s, raw) + 4 * Min(CountIn(s, raw), MAX_OBJECTS) >= 0x100 then r == TooManyObjectIds
    else
      && r.DomainOk?
      && r.parsed == parsed.(raw := parsed.raw + HEADER)
      && r.domain.message == s[raw] && r.domain.objectId == Get32(s, raw + 4)
      && |r.domain.objectIds| == Min(CountIn(s, raw), MAX_OBJECTS)
      && Words(s, raw + HEADER + LengthIn(s, raw), r.domain.objectIds)
  }

  ghost predicate HeaderInside(s: Buffer, tls: nat)
    requires |s| >= 12
  {
    Round16(tls + CountsOf(s).End()) + HEADER <= tls + |s|
  }

  /** The plain parse of the message, continued as a domain request, gives r. */
  ghost predicate ParsesAsDomain(s: Buffer, tls: nat, r: Outcome)
    requires |s| >= 12
  {
    exists parsed ::
      ParsedWith(s, tls, CountsOf(s), parsed)
      && tls <= parsed.raw && parsed.raw - tls + HEADER <= |s| && DomainParsed(s, tls, parsed, r)
  }

  /** The source reads the domain header where the plain parser found the raw data. */
  method ParseDomainRequest(mem: array<bv8>, tls: nat) returns (ghost parsed: Parsed, r: Outcome)
    // Descriptors and domain header lie inside the buffer: the source reads the header
    // without looking, and every written domain message has one.
    requires mem.Length == 0x100 && CountsOf(mem[..]).End() <= mem.Length
    requires HeaderInside(mem[..], tls)
    ensures ParsedWith(mem[..], tls, CountsOf(mem[..]), parsed)
    ensures tls <= parsed.raw && parsed.raw - tls + HEADER <= mem.Length
    ensures DomainParsed(mem[..], tls, parsed, r)
    ensures ParsesAsDomain(mem[..], tls, r)
  {
    var plain := Parse(mem, tls);
    AlignedIsUnique(tls + CountsOf(mem[..]).End(), Round16(tls + CountsOf(mem[..]).End()), plain.raw);
    parsed := plain;
    r := ParseDomainBody(mem, tls, plain);
  }

  method ParseDomainBody(mem: array<bv8>, tls: nat, parsed: Parsed) returns (r: Outcome)
    requires tls <= parsed.raw && parsed.raw - tls + HEADER <= mem.Length
    requires mem.Length >= 0x100
    ensures DomainParsed(mem[..], tls, parsed, r)
  {
    var raw := parsed.raw - tls;
    var idsAt := raw + HEADER + LengthIn(mem[..], raw);
    var message := mem[raw];
    if message != SEND_MESSAGE && message != CLOSE {
      return UnknownType;
    }
    var objectId := Get32(mem[..], raw + 4);
    var count := if CountIn(mem[..], raw) > 8 then 8 else CountIn(mem[..], raw);
    if idsAt + 4 * count >= 0x100 {
      return TooManyObjectIds;
    }
    var ids := [];
    for i := 0 to count
      invariant |ids| == i && Words(mem[..], idsAt, ids)
    {
      ghost var before := ids;
      ids := ids + [Get32(mem[..], idsAt + 4 * i)];
      assert forall k :: 0 <= k < i ==> WordAt(mem[..], idsAt, k, before[k]);
    }
    return DomainOk(parsed.(raw := parsed.raw + HEADER), Domain(message, objectId, ids));
  }

  /** The domain form round-trips as well: message type, target object and every object
      id come back, and the raw pointer is that of the payload. In a message that fits
      the buffer the ids never reach its end, so the length check cannot fail. */
  lemma DomainRoundTrip(s: Buffer, tls: nat, parsed: Parsed, raw: nat, rawSize: nat, objectId: bv32, ids: seq<bv32>,
                        c: Command, r: Outcome)
    requires |ids| <= MAX_OBJECTS && c.Shaped() && tls % 4 == 0 && |s| == 0x100
    requires MessageEnd(c, TotalRaw(rawSize, ids)) <= 0x100 && Aligned16(tls + DescriptorsEnd(c), tls + raw)
    requires DomainOn(s, raw, rawSize, objectId, ids) && parsed.raw == tls + raw
    requires DomainParsed(s, tls, parsed, r)
    ensures r == DomainOk(parsed.(raw := tls + raw + HEADER), Domain(SEND_MESSAGE, objectId, ids))
    ensures Round16(tls + DescriptorsEnd(c)) + HEADER <= tls + |s|
  {
    RawBeforeLengths(c, tls, raw, TotalRaw(rawSize, ids));
    AlignedIsUnique(tls + DescriptorsEnd(c), Round16(tls + DescriptorsEnd(c)), tls + raw);
    var got := r.domain.objectIds;
    forall i | 0 <= i < |ids|
      ensures got[i] == ids[i]
    {
      assert WordAt(s, raw + HEADER + rawSize, i, ids[i]);
      assert WordAt(s, raw + HEADER + rawSize, i, got[i]);
    }
  }
}
