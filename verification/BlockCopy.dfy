/** The block copies and fills of TinyMemBenchNX and the carving of its four test buffers
    (main.c: align_up, aligned_block_*, alloc_four_nonaliased_buffers). Arrays hold 64-bit
    words; size counts bytes and may be any int. */
module BlockCopy {
  import opened MachineInts

  // ---- What the copies and fills mean -----------------------------------------------

  /** The words moved for a size: whole blocks of 64 bytes. */
  function Words(size: int): nat {
    if size < 64 then 0 else size / 64 * 8
  }

  /** dst with the words lo..hi taken from src. */
  function Copied(dst: seq<bv64>, src: seq<bv64>, lo: nat, hi: nat): (r: seq<bv64>)
    requires lo <= hi <= |dst| && hi <= |src|
  {
    dst[..lo] + src[lo..hi] + dst[hi..]
  }

  /** dst with its first n words set to data. */
  function Filled(dst: seq<bv64>, data: bv64, n: nat): (r: seq<bv64>)
    requires n <= |dst|
  {
    seq(n, _ => data) + dst[n..]
  }

  /** Where a copy that runs down from the end of the size starts to differ. */
  function LowEnd(size: int): nat {
    if size < 64 then 0 else size / 8 - size / 64 * 8
  }

  function HighEnd(size: int): nat {
    if size < 64 then 0 else size / 8
  }

  /** The number of whole blocks: how often a loop over the size goes round. */
  lemma Blocks(size: int) returns (n: nat)
    ensures if size < 64 then n == 0 else 64 * n <= size < 64 * n + 64
    ensures Words(size) == 8 * n && LowEnd(size) == HighEnd(size) - 8 * n
    ensures size >= 64 ==> HighEnd(size) == size / 8
  {
    n := if size < 64 then 0 else size / 64;
  }

  // ---- Copies -----------------------------------------------------------------------

  /** Four words through temporaries, as every copy moves them. */
  method MoveFour(dst: array<bv64>, src: array<bv64>, i: nat, j: nat, k: nat, l: nat)
    requires dst != src
    requires i < dst.Length && j < dst.Length && k < dst.Length && l < dst.Length
    requires i < src.Length && j < src.Length && k < src.Length && l < src.Length
    modifies dst
    ensures forall m :: 0 <= m < dst.Length ==>
                          dst[m] == if m == i || m == j || m == k || m == l then src[m] else old(dst[m])
  {
    var t1, t2, t3, t4 := src[i], src[j], src[k], src[l];
    dst[i] := t1;
    dst[j] := t2;
    dst[k] := t3;
    dst[l] := t4;
  }

  /** aligned_block_copy (and, without their prefetches, the pf32 and pf64 forms). */
  method AlignedBlockCopy(dst: array<bv64>, src: array<bv64>, size: int)
    requires dst != src && Words(size) <= dst.Length && Words(size) <= src.Length
    modifies dst
    ensures dst[..] == Copied(old(dst[..]), src[..], 0, Words(size))
  {
    ghost var n := Blocks(size);
    ghost var i := 0;
    var left := size - 64;
    var p := 0;
    while left >= 0
      invariant 0 <= i <= n && p == 8 * i && left == size - 64 - 64 * i
      invariant CopiedWithin(dst, old(dst[..]), src, 0, p)
      decreases left
    {
      MoveFour(dst, src, p, p + 1, p + 2, p + 3);
      MoveFour(dst, src, p + 4, p + 5, p + 6, p + 7);
      p := p + 8;
      left := left - 64;
      i := i + 1;
    }
  }

  /** aligned_block_copy_backwards. */
  method AlignedBlockCopyBackwards(dst: array<bv64>, src: array<bv64>, size: int)
    requires dst != src && HighEnd(size) <= dst.Length && HighEnd(size) <= src.Length
    modifies dst
    ensures dst[..] == Copied(old(dst[..]), src[..], LowEnd(size), HighEnd(size))
  {
    ghost var n := Blocks(size);
    ghost var i, high := 0, HighEnd(size);
    var left := size - 64;
    var p := HighEnd(size) - 1;
    while left >= 0
      invariant 0 <= i <= n && p + 1 == high - 8 * i && left == size - 64 - 64 * i
      invariant CopiedWithin(dst, old(dst[..]), src, p + 1, high)
      decreases left
    {
      MoveFour(dst, src, p, p - 1, p - 2, p - 3);
      assert CopiedWithin(dst, old(dst[..]), src, p - 3, high);
      MoveFour(dst, src, p - 4, p - 5, p - 6, p - 7);
      p := p - 8;
      left := left - 64;
      i := i + 1;
    }
  }

  /** aligned_block_copy_backwards_bs32: each block upper half first. */
  method AlignedBlockCopyBackwards32(dst: array<bv64>, src: array<bv64>, size: int)
    requires dst != src && HighEnd(size) <= dst.Length && HighEnd(size) <= src.Length
    modifies dst
    ensures dst[..] == Copied(old(dst[..]), src[..], LowEnd(size), HighEnd(size))
  {
    ghost var n := Blocks(size);
    ghost var i, high := 0, HighEnd(size);
    var left := size - 64;
    var p := HighEnd(size) - 8;
    while left >= 0
      invariant 0 <= i <= n && p + 8 == high - 8 * i && left == size - 64 - 64 * i
      invariant CopiedWithin(dst, old(dst[..]), src, p + 8, high)
      decreases left
    {
      MoveFour(dst, src, p + 4, p + 5, p + 6, p + 7);
      assert CopiedWithin(dst, old(dst[..]), src, p + 4, high);
      MoveFour(dst, src, p, p + 1, p + 2, p + 3);
      p := p - 8;
      left := left - 64;
      i := i + 1;
    }
  }

  /** aligned_block_copy_backwards_bs64: each block lower half first. */
  method AlignedBlockCopyBackwards64(dst: array<bv64>, src: array<bv64>, size: int)
    requires dst != src && HighEnd(size) <= dst.Length && HighEnd(size) <= src.Length
    modifies dst
    ensures dst[..] == Copied(old(dst[..]), src[..], LowEnd(size), HighEnd(size))
  {
    ghost var n := Blocks(size);
    ghost var i, high := 0, HighEnd(size);
    var left := size - 64;
    var p := HighEnd(size) - 8;
    while left >= 0
      invariant 0 <= i <= n && p + 8 == high - 8 * i && left == size - 64 - 64 * i
      invariant CopiedWithin(dst, old(dst[..]), src, p + 8, high)
      decreases left
    {
      MoveFour(dst, src, p, p + 1, p + 2, p + 3);
      MoveFour(dst, src, p + 4, p + 5, p + 6, p + 7);
      p := p - 8;
      left := left - 64;
      i := i + 1;
    }
  }

  ghost predicate CopiedWithin(dst: array<bv64>, before: seq<bv64>, src: array<bv64>, low: int, high: int)
    reads dst, src
  {
    && 0 <= low <= high <= dst.Length == |before| && high <= src.Length
    && (forall k :: low <= k < high ==> dst[k] == src[k])
    && (forall k :: 0 <= k < dst.Length && !(low <= k < high) ==> dst[k] == before[k])
  }

  /** For a size made of whole blocks all four orders are one plain copy. */
  lemma CopiesAgree(dst: seq<bv64>, src: seq<bv64>, size: int)
    requires size % 64 == 0 && 0 <= size && size / 8 <= |dst| && size / 8 <= |src|
    ensures LowEnd(size) == 0 && HighEnd(size) == Words(size) == size / 8
    ensures Copied(dst, src, LowEnd(size), HighEnd(size)) == Copied(dst, src, 0, Words(size))
    ensures Copied(dst, src, 0, Words(size)) == src[..size / 8] + dst[size / 8..]
  {
  }

  // ---- Fills ------------------------------------------------------------------------

  method PutFour(dst: array<bv64>, data: bv64, i: nat, j: nat, k: nat, l: nat)
    requires i < dst.Length && j < dst.Length && k < dst.Length && l < dst.Length
    modifies dst
    ensures forall m :: 0 <= m < dst.Length ==>
                          dst[m] == if m == i || m == j || m == k || m == l then data else old(dst[m])
  {
    dst[i] := data;
    dst[j] := data;
    dst[k] := data;
    dst[l] := data;
  }

  /** aligned_block_fill. */
  method AlignedBlockFill(dst: array<bv64>, src: array<bv64>, size: int)
    requires dst != src && src.Length > 0 && Words(size) <= dst.Length
    modifies dst
    ensures dst[..] == Filled(old(dst[..]), src[0], Words(size))
  {
    var data := src[0];
    ghost var n := Blocks(size);
    ghost var i := 0;
    var left := size - 64;
    var p := 0;
    while left >= 0
      invariant 0 <= i <= n && p == 8 * i && left == size - 64 - 64 * i
      invariant FilledBelow(dst, old(dst[..]), data, p)
      decreases left
    {
      PutFour(dst, data, p, p + 1, p + 2, p + 3);
      PutFour(dst, data, p + 4, p + 5, p + 6, p + 7);
      p := p + 8;
      left := left - 64;
      i := i + 1;
    }
  }

  /** aligned_block_fill_shuffle16. */
  method AlignedBlockFillShuffle16(dst: array<bv64>, src: array<bv64>, size: int)
    requires dst != src && src.Length > 0 && Words(size) <= dst.Length
    modifies dst
    ensures dst[..] == Filled(old(dst[..]), src[0], Words(size))
  {
    var data := src[0];
    ghost var n := Blocks(size);
    ghost var i := 0;
    var left := size - 64;
    var p := 0;
    while left >= 0
      invariant 0 <= i <= n && p == 8 * i && left == size - 64 - 64 * i
      invariant FilledBelow(dst, old(dst[..]), data, p)
      decreases left
    {
      PutFour(dst, data, p, p + 1, p + 3, p + 2);
      PutFour(dst, data, p + 5, p + 4, p + 6, p + 7);
      p := p + 8;
      left := left - 64;
      i := i + 1;
    }
  }

  /** aligned_block_fill_shuffle32. */
  method AlignedBlockFillShuffle32(dst: array<bv64>, src: array<bv64>, size: int)
    requires dst != src && src.Length > 0 && Words(size) <= dst.Length
    modifies dst
    ensures dst[..] == Filled(old(dst[..]), src[0], Words(size))
  {
    var data := src[0];
    ghost var n := Blocks(size);
    ghost var i := 0;
    var left := size - 64;
    var p := 0;
    while left >= 0
      invariant 0 <= i <= n && p == 8 * i && left == size - 64 - 64 * i
      invariant FilledBelow(dst, old(dst[..]), data, p)
      decreases left
    {
      PutFour(dst, data, p + 3, p, p + 2, p + 1);
      PutFour(dst, data, p + 7, p + 4, p + 6, p + 5);
      p := p + 8;
      left := left - 64;
      i := i + 1;
    }
  }

  /** aligned_block_fill_shuffle64. */
  method AlignedBlockFillShuffle64(dst: array<bv64>, src: array<bv64>, size: int)
    requires dst != src && src.Length > 0 && Words(size) <= dst.Length
    modifies dst
    ensures dst[..] == Filled(old(dst[..]), src[0], Words(size))
  {
    var data := src[0];
    ghost var n := Blocks(size);
    ghost var i := 0;
    var left := size - 64;
    var p := 0;
    while left >= 0
      invariant 0 <= i <= n && p == 8 * i && left == size - 64 - 64 * i
      invariant FilledBelow(dst, old(dst[..]), data, p)
      decreases left
    {
      PutFour(dst, data, p + 5, p + 2, p + 7, p + 6);
      PutFour(dst, data, p + 1, p + 3, p, p + 4);
      p := p + 8;
      left := left - 64;
      i := i + 1;
    }
  }

  ghost predicate FilledBelow(dst: array<bv64>, before: seq<bv64>, data: bv64, p: int)
    reads dst
  {
    && 0 <= p <= dst.Length == |before|
    && (forall k :: 0 <= k < p ==> dst[k] == data)
    && (forall k :: p <= k < dst.Length ==> dst[k] == before[k])
  }

  // ---- Four buffers -----------------------------------------------------------------

  const ALIGN_PADDING: nat := 0x10_0000
  const CACHE_LINE_SIZE: nat := 128

  /** align_up on machine words, for the padding: the least multiple that is not below the
      pointer. */
  lemma AlignUpBits(ptr: bv64, align: bv64)
    requires align == 0x10_0000 && ptr <= 0xFFFF_FFFF_FFFF_FFFF - (align - 1)
    ensures var r := (ptr + align - 1) & !(align - 1);
            r & (align - 1) == 0 && r >= ptr && r - ptr < align
  {
  }

  /** The four offsets of the antialias patterns inside a padding unit. */
  lemma Patterns()
    ensures var mask: bv32 := (0x10_0000 - 1) & !(128 - 1);
            && (0xAAAA_AAAA & mask) == 0xA_AA80 && (0x5555_5555 & mask) == 0x5_5500
            && (0xCCCC_CCCC & mask) == 0xC_CC80 && (0x3333_3333 & mask) == 0x3_3300
  {
  }

  /** align_up(ptr, ALIGN_PADDING) on unbounded addresses. */
  function AlignUp(ptr: nat): (r: nat)
    ensures r % ALIGN_PADDING == 0 && ptr <= r < ptr + ALIGN_PADDING
  {
    (ptr + ALIGN_PADDING - 1) / ALIGN_PADDING * ALIGN_PADDING
  }

  datatype Buffer = Null | At(start: nat, len: nat)

  predicate Inside(b: Buffer, base: nat, pool: nat) {
    b.At? ==> base <= b.start && b.start + b.len <= base + pool
  }

  predicate Before(b: Buffer, c: Buffer) {
    b.At? && c.At? ==> b.start + b.len <= c.start
  }

  function Clip(wanted: bool, size: int): nat {
    if !wanted || size < 0 then 0 else size
  }

  /** One `if (buf)` block: the buffer lies behind ptr at its pattern's offset, and the next
      pointer is aligned and behind the buffer. */
  method Carve(ptr: nat, wanted: bool, size: nat, pattern: nat) returns (b: Buffer, next: nat)
    requires ptr % ALIGN_PADDING == 0 && pattern < ALIGN_PADDING && pattern % CACHE_LINE_SIZE == 0
    ensures b.At? <==> wanted
    ensures b.At? ==> b.len == size && b.start == ptr + pattern && b.start % ALIGN_PADDING == pattern
    ensures b.At? ==> b.start % CACHE_LINE_SIZE == 0
    ensures next % ALIGN_PADDING == 0 && ptr <= next && (b.At? ==> b.start + b.len <= next)
    ensures next <= if wanted then ptr + size + 2 * ALIGN_PADDING else ptr
  {
    OffsetKept(ptr, pattern);
    if wanted {
      b := At(ptr + pattern, size);
      next := AlignUp(ptr + pattern + size);
    } else {
      b, next := Null, ptr;
    }
  }

  lemma OffsetKept(ptr: nat, pattern: nat)
    requires ptr % ALIGN_PADDING == 0 && pattern < ALIGN_PADDING && pattern % CACHE_LINE_SIZE == 0
    ensures (ptr + pattern) % ALIGN_PADDING == pattern && (ptr + pattern) % CACHE_LINE_SIZE == 0
  {
    var q, r := ptr / ALIGN_PADDING, pattern / CACHE_LINE_SIZE;
    assert ptr == q * ALIGN_PADDING && pattern == r * CACHE_LINE_SIZE;
    OffsetInUnit(q, pattern);
    WholeLines(q * 8192 + r);
  }

  lemma OffsetInUnit(q: nat, pattern: nat)
    requires pattern < ALIGN_PADDING
    ensures (q * ALIGN_PADDING + pattern) % ALIGN_PADDING == pattern
  {
  }

  lemma WholeLines(k: nat)
    ensures k * CACHE_LINE_SIZE % CACHE_LINE_SIZE == 0
  {
  }

  /** For every choice of null outputs and every size the wanted buffers lie inside the pool,
      do not overlap, and start at four different offsets within the padding unit, each on
      a cache line. base is what malloc returns. */
  method AllocFourNonaliasedBuffers(base: nat, want1: bool, size1: int, want2: bool, size2: int,
                                    want3: bool, size3: int, want4: bool, size4: int)
    returns (b1: Buffer, b2: Buffer, b3: Buffer, b4: Buffer, pool: nat)
    ensures pool == Clip(want1, size1) + Clip(want2, size2) + Clip(want3, size3) + Clip(want4, size4)
                    + 9 * ALIGN_PADDING
    ensures (b1.At? <==> want1) && (b2.At? <==> want2) && (b3.At? <==> want3) && (b4.At? <==> want4)
    ensures b1.At? ==> b1.len == (if size1 < 0 then 0 else size1) && b1.start % ALIGN_PADDING == 0xA_AA80
    ensures b2.At? ==> b2.len == (if size2 < 0 then 0 else size2) && b2.start % ALIGN_PADDING == 0x5_5500
    ensures b3.At? ==> b3.len == (if size3 < 0 then 0 else size3) && b3.start % ALIGN_PADDING == 0xC_CC80
    ensures b4.At? ==> b4.len == (if size4 < 0 then 0 else size4) && b4.start % ALIGN_PADDING == 0x3_3300
    ensures forall b :: b in {b1, b2, b3, b4} && b.At? ==> b.start % CACHE_LINE_SIZE == 0
    ensures Inside(b1, base, pool) && Inside(b2, base, pool) && Inside(b3, base, pool) && Inside(b4, base, pool)
    ensures Before(b1, b2) && Before(b1, b3) && Before(b1, b4) && Before(b2, b3) && Before(b2, b4) && Before(b3, b4)
  {
    var s1, s2, s3, s4 := Clip(want1, size1), Clip(want2, size2), Clip(want3, size3), Clip(want4, size4);
    pool := s1 + s2 + s3 + s4 + 9 * ALIGN_PADDING;
    var ptr := AlignUp(base);
    b1, ptr := Carve(ptr, want1, s1, 0xA_AA80);
    b2, ptr := Carve(ptr, want2, s2, 0x5_5500);
    b3, ptr := Carve(ptr, want3, s3, 0xC_CC80);
    b4, ptr := Carve(ptr, want4, s4, 0x3_3300);
  }
}
