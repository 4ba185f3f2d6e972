/** Building the memory image of a process: ldr_process_creation.cpp,
    LoadAutoLoadModuleSegment, LoadAutoLoadModule and LoadAutoLoadModules.

    Process memory is an array; index 0 is the code address. A decompressor is known
    only by its contract: it gives the segment bytes and may leave anything (here: the
    arbitrary function noise) in the window from the segment base to the map end. */
module ModuleLoading {
  import opened MachineInts
  import opened NsoHeaders
  import opened AddressSpaceLayout

  type Bytes = seq<u8>

  /** Decompression of a buffer to the expected size; the flag selects zstd over LZ4. */
  type Codec = (bool, Bytes, nat) -> Option<Bytes>

  const S32_MAX: nat := 0x7FFF_FFFF

  /** The bytes a segment must hold once loaded, or None when loading must fail. */
  function SegmentBytes(file: Bytes, seg: Segment, zstd: bool, codec: Codec): (r: Option<Bytes>)
    ensures r.Some? ==> |r.value| == seg.size
  {
    var fileSize := if seg.compressed then seg.compressedSize else seg.size;
    if fileSize > seg.size || fileSize > S32_MAX || seg.size > S32_MAX then None
    else if seg.fileOffset + fileSize > |file| then None
    else
      var raw := file[seg.fileOffset..seg.fileOffset + fileSize];
      if !seg.compressed then Some(raw)
      else match codec(zstd, raw, seg.size)
           case Some(out) => if |out| == seg.size then Some(out) else None
           case None => None
  }

  /** When a segment can be loaded: its size is in range, the file has all its bytes, and
      compressed bytes are no more than the segment's and unpack to exactly its size. */
  predicate Readable(file: Bytes, seg: Segment, zstd: bool, codec: Codec) {
    && seg.size <= S32_MAX
    && if !seg.compressed then seg.fileOffset + seg.size <= |file|
       else
         && seg.compressedSize <= seg.size && seg.fileOffset + seg.compressedSize <= |file|
         && var out := codec(zstd, file[seg.fileOffset..seg.fileOffset + seg.compressedSize], seg.size);
            out.Some? && |out.value| == seg.size
  }

  /** The bytes of a segment are those at its file offset, or what they unpack to. */
  lemma SegmentBytesMean(file: Bytes, seg: Segment, zstd: bool, codec: Codec)
    ensures SegmentBytes(file, seg, zstd, codec).Some? <==> Readable(file, seg, zstd, codec)
    ensures Readable(file, seg, zstd, codec) && !seg.compressed ==>
              SegmentBytes(file, seg, zstd, codec).value == file[seg.fileOffset..seg.fileOffset + seg.size]
    ensures Readable(file, seg, zstd, codec) && seg.compressed ==>
              codec(zstd, file[seg.fileOffset..seg.fileOffset + seg.compressedSize], seg.size)
              == SegmentBytes(file, seg, zstd, codec)
  {
  }

  /** Everything but [lo, hi) is as before. */
  ghost predicate OnlyWithin(before: Bytes, after: Bytes, lo: int, hi: int) {
    |before| == |after| && forall k :: 0 <= k < |after| && !(lo <= k < hi) ==> after[k] == before[k]
  }

  lemma SliceKept(before: Bytes, after: Bytes, lo: int, hi: int, a: nat, b: nat)
    requires OnlyWithin(before, after, lo, hi)
    requires a <= b <= |after| && (b <= lo || hi <= a)
    ensures after[a..b] == before[a..b]
  {
  }

  method CopyTo(mem: array<u8>, at: nat, data: Bytes)
    requires at + |data| <= mem.Length
    modifies mem
    ensures mem[at..at + |data|] == data
    ensures OnlyWithin(old(mem[..]), mem[..], at, at + |data|)
  {
    forall k | 0 <= k < |data| {
      mem[at + k] := data[k];
    }
  }

  /** Nothing is known of these bytes: they are an arbitrary function of their place. */
  ghost predicate Noisy(mem: Bytes, lo: nat, hi: nat, noise: nat -> u8)
    requires hi <= |mem|
  {
    forall k :: lo <= k < hi ==> mem[k] == noise(k)
  }

  method Scribble(mem: array<u8>, lo: nat, hi: nat, noise: nat -> u8)
    requires lo <= hi <= mem.Length
    modifies mem
    ensures OnlyWithin(old(mem[..]), mem[..], lo, hi)
    ensures Noisy(mem[..], lo, hi, noise)
  {
    forall k | lo <= k < hi {
      mem[k] := noise(k);
    }
  }

  method MemsetZero(mem: array<u8>, lo: nat, hi: nat)
    requires lo <= hi <= mem.Length
    modifies mem
    ensures ZeroIn(mem[..], lo, hi)
    ensures OnlyWithin(old(mem[..]), mem[..], lo, hi)
  {
    forall k | lo <= k < hi {
      mem[k] := 0;
    }
  }

  method LoadAutoLoadModuleSegment(mem: array<u8>, file: Bytes, seg: Segment, zstd: bool, codec: Codec,
                                   base: nat, end: nat, noise: nat -> u8)
    returns (ok: bool)
    requires base + seg.size <= end <= mem.Length
    modifies mem
    ensures OnlyWithin(old(mem[..]), mem[..], base, end)
    ensures ok <==> Readable(file, seg, zstd, codec)
    ensures ok ==> SegmentBytes(file, seg, zstd, codec) == Some(mem[base..base + seg.size])
    // What is left behind: anything up to the end of the mapping after unpacking, and
    // anything where the bytes should have been read after a short read.
    ensures ok && seg.compressed ==> Noisy(mem[..], base + seg.size, end, noise)
    ensures !ok && seg.size <= S32_MAX && seg.compressed && seg.compressedSize <= seg.size ==>
      Noisy(mem[..], if seg.fileOffset + seg.compressedSize > |file| then end - seg.compressedSize else base, end, noise)
    ensures !ok && seg.size <= S32_MAX && !seg.compressed ==> Noisy(mem[..], base, base + seg.size, noise)
  {
    var fileSize := if seg.compressed then seg.compressedSize else seg.size;
    if fileSize > seg.size || fileSize > S32_MAX || seg.size > S32_MAX {
      return false;
    }
    // A compressed segment is read to the tail of the mapping and unpacked from there.
    var load := if seg.compressed then end - fileSize else base;
    if seg.fileOffset + fileSize > |file| {
      Scribble(mem, load, load + fileSize, noise);  // a short read
      return false;
    }
    CopyTo(mem, load, file[seg.fileOffset..seg.fileOffset + fileSize]);
    if !seg.compressed {
      return true;
    }
    var out := codec(zstd, mem[load..load + fileSize], seg.size);
    Scribble(mem, base, end, noise);
    if out.None? || |out.value| != seg.size {
      return false;
    }
    CopyTo(mem, base, out.value);
    return true;
  }

  /** The bytes of a segment inside a mapping that starts at index at. */
  ghost predicate SegmentAt(mem: Bytes, at: nat, seg: Segment, bytes: Option<Bytes>)
    requires at + seg.End() <= |mem|
  {
    bytes == Some(mem[at + seg.dstOffset..at + seg.End()])
  }

  /** A loaded module occupying [at, at + size): its three segments at their offsets and
      zeros in every gap and in bss. */
  ghost predicate IsModuleImage(mem: Bytes, at: nat, size: nat, h: NsoHeader, file: Bytes, codec: Codec) {
    && ExtentsOk(h) && h.rw.End() <= size && at + size <= |mem|
    && SegmentAt(mem, at, h.text, SegmentBytes(file, h.text, h.zbic, codec))
    && SegmentAt(mem, at, h.ro, SegmentBytes(file, h.ro, h.zbic, codec))
    && SegmentAt(mem, at, h.rw, SegmentBytes(file, h.rw, h.zbic, codec))
    && ZeroIn(mem, at + h.text.End(), at + h.ro.dstOffset)
    && ZeroIn(mem, at + h.ro.End(), at + h.rw.dstOffset)
    && ZeroIn(mem, at + h.rw.End(), at + size)
  }

  ghost predicate ZeroIn(mem: Bytes, lo: nat, hi: nat)
    requires hi <= |mem|
  {
    forall k :: lo <= k < hi ==> mem[k] == 0
  }

  /** Writing elsewhere keeps a module image. */
  lemma ImageKept(before: Bytes, after: Bytes, lo: int, hi: int, at: nat, size: nat, h: NsoHeader, file: Bytes, codec: Codec)
    requires OnlyWithin(before, after, lo, hi) && (at + size <= lo || hi <= at)
    requires IsModuleImage(before, at, size, h, file, codec)
    ensures IsModuleImage(after, at, size, h, file, codec)
  {
    SliceKept(before, after, lo, hi, at + h.text.dstOffset, at + h.text.End());
    SliceKept(before, after, lo, hi, at + h.ro.dstOffset, at + h.ro.End());
    SliceKept(before, after, lo, hi, at + h.rw.dstOffset, at + h.rw.End());
  }

  ghost predicate Loadable(h: NsoHeader, file: Bytes, codec: Codec) {
    && Readable(file, h.text, h.zbic, codec)
    && Readable(file, h.ro, h.zbic, codec)
    && Readable(file, h.rw, h.zbic, codec)
  }

  /** One source of scratch bytes per segment of a module. */
  datatype Noise = Noise(text: nat -> u8, ro: nat -> u8, rw: nat -> u8)

  method LoadSegments(mem: array<u8>, file: Bytes, h: NsoHeader, codec: Codec, at: nat, end: nat, noise: Noise)
    returns (ok: bool)
    requires ExtentsOk(h) && at + h.rw.End() <= end <= mem.Length
    modifies mem
    ensures OnlyWithin(old(mem[..]), mem[..], at, end)
    ensures ok <==> Loadable(h, file, codec)
    ensures ok ==> SegmentAt(mem[..], at, h.text, SegmentBytes(file, h.text, h.zbic, codec))
    ensures ok ==> SegmentAt(mem[..], at, h.ro, SegmentBytes(file, h.ro, h.zbic, codec))
    ensures ok ==> SegmentAt(mem[..], at, h.rw, SegmentBytes(file, h.rw, h.zbic, codec))
  {
    ok := LoadAutoLoadModuleSegment(mem, file, h.text, h.zbic, codec, at + h.text.dstOffset, end, noise.text);
    if !ok { return; }
    ghost var m1 := mem[..];
    ok := LoadAutoLoadModuleSegment(mem, file, h.ro, h.zbic, codec, at + h.ro.dstOffset, end, noise.ro);
    if !ok { return; }
    ghost var m2 := mem[..];
    // Loading in ascending order: later scratch windows start above earlier segments.
    ok := LoadAutoLoadModuleSegment(mem, file, h.rw, h.zbic, codec, at + h.rw.dstOffset, end, noise.rw);
    SegmentsStay(m1, m2, mem[..], h, at, end);
  }

  /** A later segment and its scratch window lie above all earlier segments. */
  lemma SegmentsStay(m1: Bytes, m2: Bytes, m3: Bytes, h: NsoHeader, at: nat, end: nat)
    requires ExtentsOk(h) && at + h.rw.End() <= end <= |m1|
    requires OnlyWithin(m1, m2, at + h.ro.dstOffset, end) && OnlyWithin(m2, m3, at + h.rw.dstOffset, end)
    ensures OnlyWithin(m1, m3, at, end)
    ensures m3[at + h.text.dstOffset..at + h.text.End()] == m1[at + h.text.dstOffset..at + h.text.End()]
    ensures m3[at + h.ro.dstOffset..at + h.ro.End()] == m2[at + h.ro.dstOffset..at + h.ro.End()]
  {
    SliceKept(m1, m2, at + h.ro.dstOffset, end, at + h.text.dstOffset, at + h.text.End());
    SliceKept(m2, m3, at + h.rw.dstOffset, end, at + h.text.dstOffset, at + h.text.End());
    SliceKept(m2, m3, at + h.rw.dstOffset, end, at + h.ro.dstOffset, at + h.ro.End());
  }

  /** Clear unused space to zero. */
  method ClearGaps(mem: array<u8>, h: NsoHeader, at: nat, nsoSize: nat)
    requires ExtentsOk(h) && h.rw.End() <= nsoSize && at + nsoSize <= mem.Length
    modifies mem
    ensures OnlyWithin(old(mem[..]), mem[..], at + h.text.End(), at + nsoSize)
    ensures ZeroIn(mem[..], at + h.text.End(), at + h.ro.dstOffset)
    ensures ZeroIn(mem[..], at + h.ro.End(), at + h.rw.dstOffset)
    ensures ZeroIn(mem[..], at + h.rw.End(), at + nsoSize)
    ensures mem[..][at + h.text.dstOffset..at + h.text.End()] == old(mem[..])[at + h.text.dstOffset..at + h.text.End()]
    ensures mem[..][at + h.ro.dstOffset..at + h.ro.End()] == old(mem[..])[at + h.ro.dstOffset..at + h.ro.End()]
    ensures mem[..][at + h.rw.dstOffset..at + h.rw.End()] == old(mem[..])[at + h.rw.dstOffset..at + h.rw.End()]
  {
    ghost var m0 := mem[..];
    MemsetZero(mem, at + h.text.End(), at + h.ro.dstOffset);
    ghost var m1 := mem[..];
    MemsetZero(mem, at + h.ro.End(), at + h.rw.dstOffset);
    ghost var m2 := mem[..];
    MemsetZero(mem, at + h.rw.End(), at + nsoSize);
    GapsCleared(m0, m1, m2, mem[..], h, at, nsoSize);
  }

  lemma GapsCleared(m0: Bytes, m1: Bytes, m2: Bytes, m3: Bytes, h: NsoHeader, at: nat, nsoSize: nat)
    requires ExtentsOk(h) && h.rw.End() <= nsoSize && at + nsoSize <= |m0|
    requires OnlyWithin(m0, m1, at + h.text.End(), at + h.ro.dstOffset)
    requires OnlyWithin(m1, m2, at + h.ro.End(), at + h.rw.dstOffset)
    requires OnlyWithin(m2, m3, at + h.rw.End(), at + nsoSize)
    requires ZeroIn(m1, at + h.text.End(), at + h.ro.dstOffset)
    requires ZeroIn(m2, at + h.ro.End(), at + h.rw.dstOffset)
    ensures OnlyWithin(m0, m3, at + h.text.End(), at + nsoSize)
    ensures ZeroIn(m3, at + h.text.End(), at + h.ro.dstOffset) && ZeroIn(m3, at + h.ro.End(), at + h.rw.dstOffset)
    ensures m3[at + h.text.dstOffset..at + h.text.End()] == m0[at + h.text.dstOffset..at + h.text.End()]
    ensures m3[at + h.ro.dstOffset..at + h.ro.End()] == m0[at + h.ro.dstOffset..at + h.ro.End()]
    ensures m3[at + h.rw.dstOffset..at + h.rw.End()] == m0[at + h.rw.dstOffset..at + h.rw.End()]
  {
    GapsZero(m0, m1, m2, m3, h, at, nsoSize);
    GapsMiss(m0, m1, m2, m3, h, at, nsoSize, h.text);
    GapsMiss(m0, m1, m2, m3, h, at, nsoSize, h.ro);
    GapsMiss(m0, m1, m2, m3, h, at, nsoSize, h.rw);
  }

  lemma GapsZero(m0: Bytes, m1: Bytes, m2: Bytes, m3: Bytes, h: NsoHeader, at: nat, nsoSize: nat)
    requires ExtentsOk(h) && h.rw.End() <= nsoSize && at + nsoSize <= |m0|
    requires OnlyWithin(m0, m1, at + h.text.End(), at + h.ro.dstOffset)
    requires OnlyWithin(m1, m2, at + h.ro.End(), at + h.rw.dstOffset)
    requires OnlyWithin(m2, m3, at + h.rw.End(), at + nsoSize)
    requires ZeroIn(m1, at + h.text.End(), at + h.ro.dstOffset)
    requires ZeroIn(m2, at + h.ro.End(), at + h.rw.dstOffset)
    ensures OnlyWithin(m0, m3, at + h.text.End(), at + nsoSize)
    ensures ZeroIn(m3, at + h.text.End(), at + h.ro.dstOffset) && ZeroIn(m3, at + h.ro.End(), at + h.rw.dstOffset)
  {
  }

  /** Clearing the three gaps leaves every segment alone. */
  lemma GapsMiss(m0: Bytes, m1: Bytes, m2: Bytes, m3: Bytes, h: NsoHeader, at: nat, nsoSize: nat, seg: Segment)
    requires ExtentsOk(h) && h.rw.End() <= nsoSize && at + nsoSize <= |m0|
    requires OnlyWithin(m0, m1, at + h.text.End(), at + h.ro.dstOffset)
    requires OnlyWithin(m1, m2, at + h.ro.End(), at + h.rw.dstOffset)
    requires OnlyWithin(m2, m3, at + h.rw.End(), at + nsoSize)
    requires seg == h.text || seg == h.ro || seg == h.rw
    ensures at + seg.End() <= |m0|
    ensures m3[at + seg.dstOffset..at + seg.End()] == m0[at + seg.dstOffset..at + seg.End()]
  {
    SliceKept(m0, m1, at + h.text.End(), at + h.ro.dstOffset, at + seg.dstOffset, at + seg.End());
    SliceKept(m1, m2, at + h.ro.End(), at + h.rw.dstOffset, at + seg.dstOffset, at + seg.End());
    SliceKept(m2, m3, at + h.rw.End(), at + nsoSize, at + seg.dstOffset, at + seg.End());
  }

  method LoadAutoLoadModule(mem: array<u8>, file: Bytes, h: NsoHeader, codec: Codec,
                            at: nat, nsoSize: nat, mapSize: nat, noise: Noise)
    returns (ok: bool)
    requires ExtentsOk(h) && h.rw.End() <= nsoSize <= mapSize
    requires at + mapSize <= mem.Length
    modifies mem
    ensures OnlyWithin(old(mem[..]), mem[..], at, at + mapSize)
    ensures ok <==> Loadable(h, file, codec)
    ensures ok ==> IsModuleImage(mem[..], at, nsoSize, h, file, codec)
  {
    ok := LoadSegments(mem, file, h, codec, at, at + mapSize, noise);
    if !ok { return; }
    ClearGaps(mem, h, at, nsoSize);
  }

  /** Where module i starts in process memory. */
  function Offset(info: ProcessInfo, i: nat): (r: nat)
    requires Tiled(info) && i < |info.nsoSize|
    ensures r + info.nsoSize[i] <= info.totalSize
  {
    EndsInside(info, i);
    CodeFirst(info, i);
    info.nsoAddress[i] - info.codeAddress
  }

  lemma {:induction false} CodeFirst(info: ProcessInfo, i: nat)
    requires Tiled(info) && i < |info.nsoSize|
    ensures info.codeAddress <= info.nsoAddress[i]
  {
    if i > 0 {
      ModulesDisjoint(info, 0, i);
    }
  }

  /** The headers are valid and a module that maps the whole rest of the image comes
      after the arguments. */
  ghost predicate ReadyToLoad(headers: seq<NsoHeader>) {
    forall i :: 0 <= i < |headers| ==> ExtentsOk(headers[i]) && (headers[i].zbic ==> i > 0)
  }

  /** Module i is in memory as its file says. */
  ghost predicate Loaded(mem: Bytes, info: ProcessInfo, headers: seq<NsoHeader>, files: seq<Bytes>, codec: Codec, i: nat)
    requires Tiled(info) && i < |info.nsoSize| == |headers| == |files|
  {
    IsModuleImage(mem, Offset(info, i), info.nsoSize[i], headers[i], files[i], codec)
  }

  /** The bytes of the argument region. */
  ghost function Arguments(mem: Bytes, info: ProcessInfo): Bytes
    requires Tiled(info) && info.argsAddress != 0 && |info.nsoSize| > 0 && info.totalSize == |mem|
  {
    EndsInside(info, 0);
    mem[info.argsAddress - info.codeAddress..info.argsAddress + info.argsSize - info.codeAddress]
  }

  ghost predicate LoadedUpTo(mem: Bytes, info: ProcessInfo, headers: seq<NsoHeader>, files: seq<Bytes>, codec: Codec, n: nat)
    requires Tiled(info) && n <= |info.nsoSize| == |headers| == |files|
  {
    forall i: nat :: i < n ==> Loaded(mem, info, headers, files, codec, i)
  }

  /** Loading module i writes from its start upwards and so keeps the modules before it. */
  lemma LoadedUpToNext(before: Bytes, after: Bytes, hi: nat, info: ProcessInfo, headers: seq<NsoHeader>,
                       files: seq<Bytes>, codec: Codec, i: nat)
    requires Tiled(info) && i < |info.nsoSize| == |headers| == |files|
    requires OnlyWithin(before, after, Offset(info, i), hi)
    requires LoadedUpTo(before, info, headers, files, codec, i)
    requires Loaded(after, info, headers, files, codec, i)
    ensures LoadedUpTo(after, info, headers, files, codec, i + 1)
  {
    forall j: nat | j < i
      ensures Loaded(after, info, headers, files, codec, j)
    {
      ModulesDisjoint(info, j, i);
      assert Loaded(before, info, headers, files, codec, j);
      ImageKept(before, after, Offset(info, i), hi, Offset(info, j), info.nsoSize[j], headers[j], files[j], codec);
    }
  }

  /** The arguments lie behind the first module, so only a first module mapped beyond
      its own end could reach them. */
  lemma ArgumentsKept(before: Bytes, after: Bytes, hi: nat, info: ProcessInfo, zbic: bool, i: nat)
    requires Tiled(info) && info.argsAddress != 0 && i < |info.nsoSize| && info.totalSize == |before| == |after|
    requires OnlyWithin(before, after, Offset(info, i), hi)
    requires zbic ==> i > 0
    requires !zbic ==> hi == Offset(info, i) + info.nsoSize[i]
    ensures Arguments(after, info) == Arguments(before, info)
  {
    EndsInside(info, 0);
    if i > 0 {
      ModulesDisjoint(info, 0, i);
    }
    SliceKept(before, after, Offset(info, i), hi, info.argsAddress - info.codeAddress,
              info.argsAddress + info.argsSize - info.codeAddress);
  }

  /** One module of the loading loop; hi is the end of the window it may write to. */
  method LoadNext(info: ProcessInfo, headers: seq<NsoHeader>, ghost args: Option<nat>, files: seq<Bytes>,
                  codec: Codec, mem: array<u8>, i: nat, noise: Noise)
    returns (ok: bool, ghost hi: nat)
    requires Packed(info, headers, args) && i < |info.nsoSize| == |headers| == |files|
    requires ReadyToLoad(headers) && info.totalSize == mem.Length
    modifies mem
    ensures ok <==> Loadable(headers[i], files[i], codec)
    ensures ok ==> Loaded(mem[..], info, headers, files, codec, i)
    ensures OnlyWithin(old(mem[..]), mem[..], Offset(info, i), hi)
    ensures hi == if headers[i].zbic then info.totalSize else Offset(info, i) + info.nsoSize[i]
  {
    var at := Offset(info, i);
    assert Holds(info.nsoSize[i], headers[i]);
    var mapSize := if headers[i].zbic then info.totalSize - at else info.nsoSize[i];
    hi := at + mapSize;
    ok := LoadAutoLoadModule(mem, files[i], headers[i], codec, at, info.nsoSize[i], mapSize, noise);
  }

  method LoadAutoLoadModules(info: ProcessInfo, headers: seq<NsoHeader>, ghost args: Option<nat>,
                             files: seq<Bytes>, codec: Codec, mem: array<u8>, noises: nat -> Noise)
    returns (ok: bool)
    requires Packed(info, headers, args) && |info.nsoSize| == |headers| == |files|
    requires ReadyToLoad(headers) && info.totalSize == mem.Length
    modifies mem
    ensures ok <==> forall i :: 0 <= i < |headers| ==> Loadable(headers[i], files[i], codec)
    // Every module ends up exactly as its file says, whatever the decompressors left behind.
    ensures ok ==> LoadedUpTo(mem[..], info, headers, files, codec, |headers|)
    // The argument region was never used as scratch, even when loading fails.
    ensures info.argsAddress != 0 && |headers| > 0 ==> Arguments(mem[..], info) == old(Arguments(mem[..], info))
  {
    ok := true;
    var i := 0;
    while i < |headers|
      invariant 0 <= i <= |headers|
      invariant forall j :: 0 <= j < i ==> Loadable(headers[j], files[j], codec)
      invariant LoadedUpTo(mem[..], info, headers, files, codec, i)
      invariant info.argsAddress != 0 && |headers| > 0 ==> Arguments(mem[..], info) == old(Arguments(mem[..], info))
    {
      ghost var before := mem[..];
      ghost var hi;
      ok, hi := LoadNext(info, headers, args, files, codec, mem, i, noises(i));
      if info.argsAddress != 0 {
        ArgumentsKept(before, mem[..], hi, info, headers[i].zbic, i);
      }
      if !ok {
        return;
      }
      LoadedUpToNext(before, mem[..], hi, info, headers, files, codec, i);
      i := i + 1;
    }
  }

  /** The finished image: every module in place, the arguments' pages still zero. */
  ghost predicate ImageOf(mem: Bytes, info: ProcessInfo, headers: seq<NsoHeader>, args: Option<nat>,
                          files: seq<Bytes>, codec: Codec)
  {
    && Packed(info, headers, args) && |info.nsoSize| == |headers| == |files| > 0 && info.totalSize == |mem|
    && LoadedUpTo(mem, info, headers, files, codec, |headers|)
    && (args.Some? ==> ZeroIn(Arguments(mem, info), 0, |Arguments(mem, info)|))
  }

  /** What the image holds for a segment of a module, in terms of its file: the bytes at the
      segment's file offset, or what they unpack to. */
  lemma ImageHoldsSegment(mem: Bytes, info: ProcessInfo, headers: seq<NsoHeader>, args: Option<nat>,
                          files: seq<Bytes>, codec: Codec, i: nat, seg: Segment)
    requires ImageOf(mem, info, headers, args, files, codec) && i < |headers|
    requires seg == headers[i].text || seg == headers[i].ro || seg == headers[i].rw
    ensures var lo := info.nsoAddress[i] + seg.dstOffset - info.codeAddress;
            && 0 <= lo && lo + seg.size <= |mem|
            && seg.fileOffset + (if seg.compressed then seg.compressedSize else seg.size) <= |files[i]|
            && (!seg.compressed ==>
                  mem[lo..lo + seg.size] == files[i][seg.fileOffset..seg.fileOffset + seg.size])
            && (seg.compressed ==>
                  codec(headers[i].zbic, files[i][seg.fileOffset..seg.fileOffset + seg.compressedSize], seg.size)
                  == Some(mem[lo..lo + seg.size]))
  {
    assert Loaded(mem, info, headers, files, codec, i);
    ModuleHoldsSegment(mem, Offset(info, i), info.nsoSize[i], headers[i], files[i], codec, seg);
  }

  lemma ModuleHoldsSegment(mem: Bytes, at: nat, size: nat, h: NsoHeader, file: Bytes, codec: Codec, seg: Segment)
    requires IsModuleImage(mem, at, size, h, file, codec) && (seg == h.text || seg == h.ro || seg == h.rw)
    ensures at + seg.End() <= |mem|
    ensures seg.fileOffset + (if seg.compressed then seg.compressedSize else seg.size) <= |file|
    ensures !seg.compressed ==> mem[at + seg.dstOffset..at + seg.End()] == file[seg.fileOffset..seg.fileOffset + seg.size]
    ensures seg.compressed ==>
              codec(h.zbic, file[seg.fileOffset..seg.fileOffset + seg.compressedSize], seg.size)
              == Some(mem[at + seg.dstOffset..at + seg.End()])
  {
    SegmentBytesMean(file, seg, h.zbic, codec);
  }

  lemma ArgumentsZero(mem: Bytes, info: ProcessInfo)
    requires Tiled(info) && info.argsAddress != 0 && |info.nsoSize| > 0 && info.totalSize == |mem|
    requires ZeroIn(mem, 0, |mem|)
    ensures ZeroIn(Arguments(mem, info), 0, |Arguments(mem, info)|)
  {
    var arguments := Arguments(mem, info);
    var at := info.argsAddress - info.codeAddress;
    EndsInside(info, 0);
    forall k | 0 <= k < |arguments|
      ensures arguments[k] == 0
    {
      assert arguments[k] == mem[at + k];
    }
  }

  /** Layout, process creation and module loading. The kernel hands out zeroed memory. */
  method CreateProcessAndLoadAutoLoadModules(headers: seq<NsoHeader>, files: seq<Bytes>, argument: Option<u64>, bufferSize: u64,
                                             window: Window, aslr: bool, rand: u64, codec: Codec, noises: nat -> Noise)
    returns (ok: bool, info: ProcessInfo, mem: array<u8>)
    requires ReadyToLoad(headers) && |headers| == |files| > 0 && window.Valid()
    ensures ok <==> && NoEmptyModule(headers) && Fits(headers, ArgsSize(argument, bufferSize), window)
                    && forall i :: 0 <= i < |headers| ==> Loadable(headers[i], files[i], codec)
    ensures ok ==> InWindow(info, window) && ImageOf(mem[..], info, headers, ArgsSize(argument, bufferSize), files, codec)
  {
    var layout := DecideAddressSpaceLayout(headers, argument, bufferSize, window, aslr, rand);
    if !layout.Done? {
      mem := new u8[0];
      return false, ProcessInfo(0, 0, 0, 0, [], []), mem;
    }
    info := layout.info;
    mem := new u8[info.totalSize](_ => 0);
    ghost var zeroed := mem[..];
    assert forall k :: 0 <= k < |zeroed| ==> zeroed[k] == 0;
    if argument.Some? {
      ArgumentsZero(zeroed, info);
    }
    ok := LoadAutoLoadModules(info, headers, ArgsSize(argument, bufferSize), files, codec, mem, noises);
  }

  /** The NSO files in load order. */
  function FilesOf(indices: seq<nat>, contents: nat -> Bytes): (r: seq<Bytes>)
    ensures |r| == |indices|
  {
    seq(|indices|, k requires 0 <= k < |indices| => contents(indices[k]))
  }

  ghost predicate Launchable(ctx: Context, browserDll: bool, argument: Option<u64>, bufferSize: u64,
                             window: Window, contents: nat -> Bytes, codec: Codec)
  {
    && Checked(ctx, browserDll)
    && NoEmptyModule(ctx.headers) && Fits(ctx.headers, ArgsSize(argument, bufferSize), window)
    && |ctx.headers| == |ctx.indices|
    && forall i :: 0 <= i < |ctx.headers| ==> Loadable(ctx.headers[i], FilesOf(ctx.indices, contents)[i], codec)
  }

  /** Every module that is present ends up in the image of a launched process: its segments
      hold what its own file has at their file offsets, unpacked if they are compressed. */
  lemma PresentModuleIsLoaded(ctx: Context, codeFiles: seq<CodeFile>, browserDll: bool, mem: Bytes, info: ProcessInfo,
                              args: Option<nat>, contents: nat -> Bytes, codec: Codec, i: nat, seg: Segment)
    returns (at: nat)
    requires Collected(ctx, codeFiles, browserDll, |codeFiles|) && Present(codeFiles, i, browserDll)
    requires ImageOf(mem, info, ctx.headers, args, FilesOf(ctx.indices, contents), codec)
    requires var h := codeFiles[i].header; seg == h.text || seg == h.ro || seg == h.rw
    ensures at + seg.size <= |mem| && exists p :: 0 <= p < |ctx.indices| == |info.nsoAddress| && ctx.indices[p] == i
                                                  && info.codeAddress + at == info.nsoAddress[p] + seg.dstOffset
    ensures seg.fileOffset + (if seg.compressed then seg.compressedSize else seg.size) <= |contents(i)|
    ensures !seg.compressed ==> mem[at..at + seg.size] == contents(i)[seg.fileOffset..seg.fileOffset + seg.size]
    ensures seg.compressed ==>
              codec(codeFiles[i].header.zbic, contents(i)[seg.fileOffset..seg.fileOffset + seg.compressedSize], seg.size)
              == Some(mem[at..at + seg.size])
  {
    var p :| 0 <= p < |ctx.indices| && ctx.indices[p] == i;
    assert IsModule(codeFiles, browserDll, ctx.indices[p], ctx.headers[p]);
    ImageHoldsSegment(mem, info, ctx.headers, args, FilesOf(ctx.indices, contents), codec, p, seg);
    at := info.nsoAddress[p] + seg.dstOffset - info.codeAddress;
  }

  /** The argument area of a launched process is still as the kernel handed it out. */
  lemma ArgumentAreaIsZero(mem: Bytes, info: ProcessInfo, headers: seq<NsoHeader>, args: Option<nat>,
                           files: seq<Bytes>, codec: Codec, address: nat)
    requires ImageOf(mem, info, headers, args, files, codec) && args.Some?
    requires info.argsAddress <= address < info.argsAddress + info.argsSize
    ensures info.codeAddress <= address < info.codeAddress + |mem| && mem[address - info.codeAddress] == 0
  {
    EndsInside(info, 0);
    assert Arguments(mem, info)[address - info.argsAddress] == mem[address - info.codeAddress];
  }

  /** CreateProcess from the NSO headers to the loaded image. */
  method CreateProcess(codeFiles: seq<CodeFile>, browserDll: bool, argument: Option<u64>, bufferSize: u64,
                       window: Window, aslr: bool, rand: u64,
                       contents: nat -> Bytes, codec: Codec, noises: nat -> Noise)
    returns (ctx: Option<Context>, info: ProcessInfo, mem: array<u8>, ghost found: Option<Context>)
    requires |codeFiles| == NSO_COUNT && window.Valid()
    // The modules found, if all considered files can be read; the launch succeeds exactly
    // when they pass the checks, fit the window and can all be loaded.
    ensures found.None? <==> exists i :: Broken(codeFiles, i, browserDll)
    ensures found.Some? ==> Collected(found.value, codeFiles, browserDll, NSO_COUNT)
    ensures ctx.Some? <==> found.Some? && Launchable(found.value, browserDll, argument, bufferSize, window, contents, codec)
    ensures ctx.Some? ==> ctx == found
    ensures ctx.Some? ==> InWindow(info, window)
    ensures ctx.Some? ==> ImageOf(mem[..], info, ctx.value.headers, ArgsSize(argument, bufferSize),
                                  FilesOf(ctx.value.indices, contents), codec)
  {
    mem := new u8[0];
    info := ProcessInfo(0, 0, 0, 0, [], []);
    ctx := LoadAutoLoadHeaders(codeFiles, browserDll);
    found := ctx;
    if ctx.None? {
      return;
    }
    var ok := CheckAutoLoad(ctx.value, browserDll);
    if !ok {
      ctx := None;
      return;
    }
    HeadersReady(ctx.value, codeFiles, browserDll);
    ok, info, mem := CreateProcessAndLoadAutoLoadModules(ctx.value.headers, FilesOf(ctx.value.indices, contents),
                                                         argument, bufferSize, window, aslr, rand, codec, noises);
    if !ok {
      ctx := None;
    }
  }

  lemma HeadersReady(ctx: Context, files: seq<CodeFile>, browserDll: bool)
    requires |files| == NSO_COUNT
    requires Collected(ctx, files, browserDll, NSO_COUNT)
    requires Checked(ctx, browserDll)
    ensures ReadyToLoad(ctx.headers) && |ctx.headers| > 0
  {
    forall i | 0 <= i < |ctx.headers|
      ensures ExtentsOk(ctx.headers[i]) && (ctx.headers[i].zbic ==> i > 0)
    {
      assert HeaderOk(ctx, i);
      if ctx.headers[i].zbic {
        ZbicOnlyAfterRtld(ctx, files, browserDll, i);
      }
    }
  }
}
