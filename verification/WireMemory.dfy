/** Little-endian words in a byte buffer, and the bookkeeping that a writer needs: what a
    store changes and what it leaves alone. */
module WireMemory {
  type Buffer = seq<bv8>

  function Join(a: bv8, b: bv8, c: bv8, d: bv8): bv32 {
    (a as bv32) | ((b as bv32) << 8) | ((c as bv32) << 16) | ((d as bv32) << 24)
  }

  function Low8(w: bv32): bv8 { (w & 0xFF) as bv8 }

  lemma JoinSplits(w: bv32)
    ensures Join(Low8(w), Low8(w >> 8), Low8(w >> 16), Low8(w >> 24)) == w
  {
  }

  function Get32(s: Buffer, off: nat): bv32
    requires off + 4 <= |s|
  {
    Join(s[off], s[off + 1], s[off + 2], s[off + 3])
  }

  function Get16(s: Buffer, off: nat): bv32
    requires off + 2 <= |s|
  {
    Join(s[off], s[off + 1], 0, 0)
  }

  /** Words are stored with the low byte first. */
  lemma LowByteFirst(s: Buffer, off: nat)
    requires off + 4 <= |s|
    ensures (Get32(s, off) & 0xFF) as bv8 == s[off] && ((Get32(s, off) >> 8) & 0xFF) as bv8 == s[off + 1]
    ensures ((Get32(s, off) >> 16) & 0xFF) as bv8 == s[off + 2] && ((Get32(s, off) >> 24) & 0xFF) as bv8 == s[off + 3]
  {
    JoinedBytes(s[off], s[off + 1], s[off + 2], s[off + 3]);
  }

  lemma LowByteFirst16(s: Buffer, off: nat)
    requires off + 2 <= |s|
    ensures (Get16(s, off) & 0xFF) as bv8 == s[off] && Get16(s, off) >> 8 == s[off + 1] as bv32
  {
    JoinedBytes(s[off], s[off + 1], 0, 0);
    JoinedHalf(s[off], s[off + 1]);
  }

  lemma JoinedBytes(a: bv8, b: bv8, c: bv8, d: bv8)
    ensures var w := Join(a, b, c, d);
            && (w & 0xFF) as bv8 == a && ((w >> 8) & 0xFF) as bv8 == b
            && ((w >> 16) & 0xFF) as bv8 == c && ((w >> 24) & 0xFF) as bv8 == d
  {
  }

  lemma JoinedHalf(a: bv8, b: bv8)
    ensures Join(a, b, 0, 0) >> 8 == b as bv32
  {
  }

  /** Everything but [lo, hi) is as before. */
  ghost predicate OnlyWithin(before: Buffer, after: Buffer, lo: int, hi: int) {
    |before| == |after| && forall k :: 0 <= k < |after| && !(lo <= k < hi) ==> after[k] == before[k]
  }

  /** The words at off are ws. */
  ghost predicate Words(s: Buffer, off: nat, ws: seq<bv32>) {
    off + 4 * |ws| <= |s| && forall i :: 0 <= i < |ws| ==> WordAt(s, off, i, ws[i])
  }

  ghost predicate WordAt(s: Buffer, off: nat, i: nat, w: bv32) {
    off + 4 * i + 4 <= |s| && Get32(s, off + 4 * i) == w
  }

  lemma WordsKept(before: Buffer, after: Buffer, lo: int, hi: int, off: nat, ws: seq<bv32>)
    requires OnlyWithin(before, after, lo, hi) && (off + 4 * |ws| <= lo || hi <= off)
    requires Words(before, off, ws)
    ensures Words(after, off, ws)
  {
    forall i | 0 <= i < |ws|
      ensures WordAt(after, off, i, ws[i])
    {
      assert WordAt(before, off, i, ws[i]);
    }
  }

  method Put8(mem: array<bv8>, off: nat, b: bv8)
    requires off < mem.Length
    modifies mem
    ensures mem[off] == b
    ensures OnlyWithin(old(mem[..]), mem[..], off, off + 1)
  {
    mem[off] := b;
  }

  method Put16(mem: array<bv8>, off: nat, w: bv32)
    requires off + 2 <= mem.Length && w <= 0xFFFF
    modifies mem
    ensures Get16(mem[..], off) == w
    ensures OnlyWithin(old(mem[..]), mem[..], off, off + 2)
  {
    mem[off] := Low8(w);
    mem[off + 1] := Low8(w >> 8);
    JoinSplits(w);
    HighZero(w);
  }

  lemma HighZero(w: bv32)
    requires w <= 0xFFFF
    ensures Low8(w >> 16) == 0 && Low8(w >> 24) == 0
  {
  }

  method Put32(mem: array<bv8>, off: nat, w: bv32)
    requires off + 4 <= mem.Length
    modifies mem
    ensures Get32(mem[..], off) == w
    ensures OnlyWithin(old(mem[..]), mem[..], off, off + 4)
  {
    mem[off] := Low8(w);
    mem[off + 1] := Low8(w >> 8);
    mem[off + 2] := Low8(w >> 16);
    mem[off + 3] := Low8(w >> 24);
    JoinSplits(w);
  }
}
