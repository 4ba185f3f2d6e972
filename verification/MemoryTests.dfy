/** What the memory tests of MemTesterNX find (tests.c): the address test on memory whose
    words may alias, and the comparison tests on memory with stuck bits. */
module MemoryTests {
  import opened MachineInts

  // ---- Stuck addresses --------------------------------------------------------------

  /** Memory whose only fault is its address decoder: word i of the region is cell
      decode[i]. The region starts at address base. */
  class AliasedRegion {
    const base: u64
    const decode: seq<nat>
    const cells: array<u64>

    constructor (base: u64, decode: seq<nat>, cells: array<u64>)
      ensures this.base == base && this.decode == decode && this.cells == cells
    {
      this.base, this.decode, this.cells := base, decode, cells;
    }

    /** An aligned region of the address space. */
    ghost predicate Valid() {
      && base % 8 == 0 && base + 8 * |decode| <= TWO_64
      && forall i :: 0 <= i < |decode| ==> decode[i] < cells.Length
    }

    /** test_stuck_address: it returns 0 exactly when no two words share a cell, provided
        the dividend leaves at least one round. */
    method TestStuckAddress(dividend: nat) returns (r: int)
      requires Valid() && 0 < dividend
      modifies cells
      ensures r == 0 || r == -1
      ensures r == 0 <==> Injective(decode) || dividend > 16
    {
      var j := 0;
      while j < 16 / dividend
        invariant j > 0 ==> Injective(decode)
      {
        Write(j);
        var ok := Check(j);
        if !ok {
          return -1;
        }
        j := j + 1;
      }
      r := 0;
    }

    /** One pass of the checking loop. */
    method Check(j: nat) returns (ok: bool)
      requires Valid() && LastWriteWins(cells[..], base, decode, |decode|, j)
      ensures ok <==> Injective(decode)
    {
      var i := 0;
      while i < |decode|
        invariant 0 <= i <= |decode|
        invariant forall k :: 0 <= k < i ==> LastOf(decode, |decode|, k)
      {
        ghost var last := FindLast(decode, i);
        assert cells[..][decode[last]] == cells[decode[i]];
        PatternTellsWords(base, j, i, last);
        if cells[decode[i]] != Pattern(base, j, i) {
          assert decode[i] == decode[last] && i < last;
          return false;
        }
        assert last == i;
        i := i + 1;
      }
      AllLast(decode);
      ok := true;
    }

    /** One pass of the writing loop: the last word to share a cell wins. */
    method Write(j: nat)
      requires Valid()
      modifies cells
      ensures LastWriteWins(cells[..], base, decode, |decode|, j)
    {
      var i := 0;
      while i < |decode|
        invariant 0 <= i <= |decode|
        invariant LastWriteWins(cells[..], base, decode, i, j)
      {
        ghost var before := cells[..];
        var v: u64 := Pattern(base, j, i);
        cells[decode[i]] := v;
        NextWrite(before, base, decode, i, j, v);
        assert cells[..] == before[decode[i] := v];
        i := i + 1;
      }
    }
  }

  /** After n words were written, a word that is the last in its cell holds its pattern. */
  ghost predicate LastWriteWins(cells: seq<u64>, base: u64, decode: seq<nat>, n: nat, j: nat) {
    && n <= |decode|
    && (forall k :: 0 <= k < |decode| ==> decode[k] < |cells|)
    && forall k :: 0 <= k < n && LastOf(decode, n, k) ==> cells[decode[k]] == Pattern(base, j, k)
  }

  lemma NextWrite(cells: seq<u64>, base: u64, decode: seq<nat>, i: nat, j: nat, v: u64)
    requires LastWriteWins(cells, base, decode, i, j) && i < |decode| && v == Pattern(base, j, i)
    ensures LastWriteWins(cells[decode[i] := v], base, decode, i + 1, j)
  {
    forall k | 0 <= k < i && LastOf(decode, i + 1, k)
      ensures LastOf(decode, i, k) && decode[k] != decode[i]
    {
    }
  }

  ghost predicate Injective(decode: seq<nat>) {
    forall i, k :: 0 <= i < k < |decode| ==> decode[i] != decode[k]
  }

  /** The value word i gets in round j: its own address or the complement. */
  function Pattern(base: nat, j: nat, i: nat): int {
    if (j + i) % 2 == 0 then base + 8 * i else TWO_64 - 1 - (base + 8 * i)
  }

  /** A word gets its address in one round and the complement in the next, neighbours the
      other way round; the rounds begin with the address in the first word. */
  lemma PatternAlternates(base: nat, j: nat, i: nat)
    ensures Pattern(base, i, i) == base + 8 * i
    ensures Pattern(base, j + 1, i) == TWO_64 - 1 - Pattern(base, j, i)
    ensures Pattern(base, j, i + 1) == Pattern(base, j + 1, i) + if (j + i) % 2 == 0 then -8 else 8
  {
  }

  lemma PatternTellsWords(base: u64, j: nat, i: nat, k: nat)
    requires base % 8 == 0
    ensures Pattern(base, j, i) == Pattern(base, j, k) <==> i == k
  {
    assert (base + 8 * i) % 8 == 0 && (base + 8 * k) % 8 == 0;
    assert (TWO_64 - 1 - (base + 8 * i)) % 8 == 7 && (TWO_64 - 1 - (base + 8 * k)) % 8 == 7;
  }

  /** Of the first n words, k is the last one in its cell. */
  ghost predicate LastOf(decode: seq<nat>, n: nat, k: nat)
    requires k < n <= |decode|
  {
    forall m :: k < m < n ==> decode[m] != decode[k]
  }

  lemma {:induction false} FindLast(decode: seq<nat>, i: nat) returns (last: nat)
    requires i < |decode|
    ensures i <= last < |decode| && decode[last] == decode[i] && LastOf(decode, |decode|, last)
    decreases |decode| - i
  {
    if LastOf(decode, |decode|, i) {
      last := i;
    } else {
      var m :| i < m < |decode| && decode[m] == decode[i];
      last := FindLast(decode, m);
    }
  }

  lemma AllLast(decode: seq<nat>)
    requires forall k :: 0 <= k < |decode| ==> LastOf(decode, |decode|, k)
    ensures Injective(decode)
  {
    forall i, k | 0 <= i < k < |decode|
      ensures decode[i] != decode[k]
    {
      assert LastOf(decode, |decode|, i);
    }
  }

  // ---- Stuck bits -------------------------------------------------------------------

  /** The bits of one word that are stuck at one and at zero. */
  datatype Fault = Fault(ones: bv64, zeros: bv64)

  const HEALTHY := Fault(0, 0)
  const ONEBITS: bv64 := 0xFFFF_FFFF_FFFF_FFFF

  predicate Proper(f: Fault) { f.ones & f.zeros == 0 }

  function Held(ones: bv64, zeros: bv64, v: bv64): bv64 { (v & !zeros) | ones }

  /** A bit stuck at one reads 1, a bit stuck at zero reads 0, and all others read as written. */
  lemma HeldStuck(ones: bv64, zeros: bv64, v: bv64)
    requires ones & zeros == 0
    ensures Held(ones, zeros, v) & ones == ones && Held(ones, zeros, v) & zeros == 0
  {
  }

  lemma HeldOthers(ones: bv64, zeros: bv64, v: bv64)
    ensures Held(ones, zeros, v) & !(ones | zeros) == v & !(ones | zeros)
  {
  }

  /** What a word with these faults holds after a store. */
  function Stored(f: Fault, v: bv64): bv64 { Held(f.ones, f.zeros, v) }

  /** The two halves a comparison test works on. */
  class Halves {
    const faultsA: seq<Fault>
    const faultsB: seq<Fault>
    const a: array<bv64>
    const b: array<bv64>

    constructor (faultsA: seq<Fault>, faultsB: seq<Fault>, a: array<bv64>, b: array<bv64>)
      ensures this.faultsA == faultsA && this.faultsB == faultsB && this.a == a && this.b == b
    {
      this.faultsA, this.faultsB, this.a, this.b := faultsA, faultsB, a, b;
    }

    ghost predicate Valid() {
      && a != b && a.Length == b.Length == |faultsA| == |faultsB|
      && forall i :: 0 <= i < a.Length ==> Proper(faultsA[i]) && Proper(faultsB[i])
    }

    /** compare_regions, which looks at all words even after a difference. */
    method CompareRegions() returns (r: int)
      requires Valid()
      ensures r == if a[..] == b[..] then 0 else -1
    {
      r := 0;
      var i := 0;
      while i < a.Length
        invariant 0 <= i <= a.Length
        invariant r == 0 || r == -1
        invariant r == 0 <==> forall k :: 0 <= k < i ==> a[k] == b[k]
      {
        if a[i] != b[i] {
          r := -1;
        }
        i := i + 1;
      }
      assert r == 0 ==> a[..] == b[..];
      assert a[..] == b[..] ==> forall k :: 0 <= k < a.Length ==> a[..][k] == b[..][k];
    }

    /** test_solidbits_comparison: 0 when in every round each word reads the same in both
        halves, whatever they held before. */
    method TestSolidBits(dividend: nat) returns (r: int)
      requires Valid() && 0 < dividend
      modifies a, b
      ensures r == 0 || r == -1
      ensures r == 0 <==> SameInAll(faultsA, faultsB, 64 / dividend / dividend)
    {
      var rounds := 64 / dividend / dividend;
      r := SolidBitsRounds(rounds);
    }

    method SolidBitsRounds(rounds: nat) returns (r: int)
      requires Valid()
      modifies a, b
      ensures r == 0 || r == -1
      ensures r == 0 <==> SameInAll(faultsA, faultsB, rounds)
    {
      var j := 0;
      while j < rounds
        invariant 0 <= j <= rounds
        invariant SameInAll(faultsA, faultsB, j)
      {
        Fill(if j % 2 == 0 then ONEBITS else 0, j);
        var c := CompareRegions();
        HalvesEqual(faultsA, faultsB, a[..], b[..], j);
        if c != 0 {
          return -1;
        }
        j := j + 1;
      }
      r := 0;
    }

    method Fill(q: bv64, ghost j: nat)
      requires Valid() && q == if j % 2 == 0 then ONEBITS else 0
      modifies a, b
      ensures forall i :: 0 <= i < a.Length ==>
                            a[i] == Stored(faultsA[i], Solid(j, i)) && b[i] == Stored(faultsB[i], Solid(j, i))
    {
      var i := 0;
      while i < a.Length
        invariant 0 <= i <= a.Length
        invariant forall k :: 0 <= k < i ==>
                                a[k] == Stored(faultsA[k], Solid(j, k)) && b[k] == Stored(faultsB[k], Solid(j, k))
      {
        var v := if i % 2 == 0 then q else !q;
        SolidValue(j, i, q);
        b[i] := Stored(faultsB[i], v);
        a[i] := Stored(faultsA[i], v);
        i := i + 1;
      }
    }

    /** The read-modify-write tests (xor, sub, mul, div, or, and): each word of both halves
        goes through the same operation, then the halves are compared. */
    method TestModify(op: bv64 -> bv64) returns (r: int)
      requires Valid()
      modifies a, b
      ensures forall i :: 0 <= i < a.Length ==> a[i] == Stored(faultsA[i], op(old(a[i])))
      ensures forall i :: 0 <= i < b.Length ==> b[i] == Stored(faultsB[i], op(old(b[i])))
      ensures r == if a[..] == b[..] then 0 else -1
    {
      var i := 0;
      while i < a.Length
        invariant 0 <= i <= a.Length
        invariant forall k :: 0 <= k < i ==> a[k] == Stored(faultsA[k], op(old(a[k])))
        invariant forall k :: 0 <= k < i ==> b[k] == Stored(faultsB[k], op(old(b[k])))
        invariant forall k :: i <= k < a.Length ==> a[k] == old(a[k]) && b[k] == old(b[k])
      {
        a[i] := Stored(faultsA[i], op(a[i]));
        b[i] := Stored(faultsB[i], op(b[i]));
        i := i + 1;
      }
      r := CompareRegions();
    }
  }

  /** The bitwise read-modify-write tests. */
  datatype Op = Xor | Or | And

  function Apply(op: Op, v: bv64, q: bv64): bv64 {
    match op
    case Xor => v ^ q
    case Or => v | q
    case And => v & q
  }

  /** What each operation does to the bits of v that q selects, and to the others. */
  lemma XorBits(v: bv64, q: bv64)
    ensures Apply(Xor, v, q) & q == !v & q && Apply(Xor, v, q) & !q == v & !q
  {
  }

  lemma OrBits(v: bv64, q: bv64)
    ensures Apply(Or, v, q) & q == q && Apply(Or, v, q) & !q == v & !q
  {
  }

  lemma AndBits(v: bv64, q: bv64)
    ensures Apply(And, v, q) & q == v & q && Apply(And, v, q) & !q == 0
  {
  }

  /** The bits that a word's faults keep from following an operation: an xor flips any stuck
      bit in vain, an or sets a bit stuck at zero in vain, an and clears one stuck at one. */
  function Missed(op: Op, ones: bv64, zeros: bv64, q: bv64): bv64 {
    match op
    case Xor => q & (ones | zeros)
    case Or => q & zeros & !ones
    case And => !q & ones
  }

  function MissedBits(op: Op, faults: seq<Fault>, q: bv64): (r: seq<bv64>)
    ensures |r| == |faults|
  {
    seq(|faults|, i requires 0 <= i < |faults| => Missed(op, faults[i].ones, faults[i].zeros, q))
  }

  /** test_xor_comparison, test_or_comparison and test_and_comparison: on halves that read
      equal before, they fail exactly when the two halves miss different bits. */
  method TestBitwise(op: Op, h: Halves, q: bv64) returns (r: int)
    requires h.Valid() && Settled(h.a[..], h.faultsA) && Settled(h.b[..], h.faultsB) && h.a[..] == h.b[..]
    modifies h.a, h.b
    ensures forall i :: 0 <= i < h.a.Length ==> h.a[i] == Stored(h.faultsA[i], Apply(op, old(h.a[i]), q))
    ensures forall i :: 0 <= i < h.b.Length ==> h.b[i] == Stored(h.faultsB[i], Apply(op, old(h.b[i]), q))
    ensures r == if MissedBits(op, h.faultsA, q) == MissedBits(op, h.faultsB, q) then 0 else -1
  {
    ghost var was := h.a[..];
    r := h.TestModify(v => Apply(op, v, q));
    forall i | 0 <= i < |was|
      ensures ModifiedAt(op, h.a[..], h.faultsA, was, q, i) && ModifiedAt(op, h.b[..], h.faultsB, was, q, i)
    {
    }
    ModifyOutcome(op, h.faultsA, h.faultsB, was, q, h.a[..], h.b[..]);
  }

  /** Every word holds what its faults let it hold. */
  ghost predicate Settled(words: seq<bv64>, faults: seq<Fault>) {
    |words| == |faults| && forall i :: 0 <= i < |words| ==> words[i] == Stored(faults[i], words[i])
  }

  lemma EqualTogether<T>(a: seq<T>, b: seq<T>, c: seq<T>, d: seq<T>)
    requires |a| == |b| == |c| == |d|
    requires forall i :: 0 <= i < |a| ==> (a[i] == b[i] <==> c[i] == d[i])
    ensures a == b <==> c == d
  {
    if a == b {
      assert forall i :: 0 <= i < |a| ==> a[i] == b[i];
    }
    if c == d {
      assert forall i :: 0 <= i < |a| ==> c[i] == d[i];
    }
  }

  lemma XorSame(o: bv64, z: bv64, o': bv64, z': bv64, v: bv64, q: bv64)
    requires Held(o, z, v) == v && Held(o', z', v) == v && Missed(Xor, o, z, q) == Missed(Xor, o', z', q)
    ensures Held(o, z, Apply(Xor, v, q)) == Held(o', z', Apply(Xor, v, q))
  {
  }

  lemma XorDiffer(o: bv64, z: bv64, o': bv64, z': bv64, v: bv64, q: bv64)
    requires Held(o, z, v) == v && Held(o', z', v) == v
    requires Held(o, z, Apply(Xor, v, q)) == Held(o', z', Apply(Xor, v, q))
    ensures Missed(Xor, o, z, q) == Missed(Xor, o', z', q)
  {
  }

  lemma OrSame(o: bv64, z: bv64, o': bv64, z': bv64, v: bv64, q: bv64)
    requires Held(o, z, v) == v && Held(o', z', v) == v && Missed(Or, o, z, q) == Missed(Or, o', z', q)
    ensures Held(o, z, Apply(Or, v, q)) == Held(o', z', Apply(Or, v, q))
  {
  }

  lemma OrDiffer(o: bv64, z: bv64, o': bv64, z': bv64, v: bv64, q: bv64)
    requires Held(o, z, v) == v && Held(o', z', v) == v
    requires Held(o, z, Apply(Or, v, q)) == Held(o', z', Apply(Or, v, q))
    ensures Missed(Or, o, z, q) == Missed(Or, o', z', q)
  {
  }

  lemma AndSame(o: bv64, z: bv64, o': bv64, z': bv64, v: bv64, q: bv64)
    requires Held(o, z, v) == v && Held(o', z', v) == v && Missed(And, o, z, q) == Missed(And, o', z', q)
    ensures Held(o, z, Apply(And, v, q)) == Held(o', z', Apply(And, v, q))
  {
  }

  lemma AndDiffer(o: bv64, z: bv64, o': bv64, z': bv64, v: bv64, q: bv64)
    requires Held(o, z, v) == v && Held(o', z', v) == v
    requires Held(o, z, Apply(And, v, q)) == Held(o', z', Apply(And, v, q))
    ensures Missed(And, o, z, q) == Missed(And, o', z', q)
  {
  }

  lemma SameMissed(op: Op, o: bv64, z: bv64, o': bv64, z': bv64, v: bv64, q: bv64)
    requires Held(o, z, v) == v && Held(o', z', v) == v && Missed(op, o, z, q) == Missed(op, o', z', q)
    ensures Held(o, z, Apply(op, v, q)) == Held(o', z', Apply(op, v, q))
  {
    match op {
      case Xor => XorSame(o, z, o', z', v, q);
      case Or => OrSame(o, z, o', z', v, q);
      case And => AndSame(o, z, o', z', v, q);
    }
  }

  lemma SameHeld(op: Op, o: bv64, z: bv64, o': bv64, z': bv64, v: bv64, q: bv64)
    requires Held(o, z, v) == v && Held(o', z', v) == v
    requires Held(o, z, Apply(op, v, q)) == Held(o', z', Apply(op, v, q))
    ensures Missed(op, o, z, q) == Missed(op, o', z', q)
  {
    match op {
      case Xor => XorDiffer(o, z, o', z', v, q);
      case Or => OrDiffer(o, z, o', z', v, q);
      case And => AndDiffer(o, z, o', z', v, q);
    }
  }

  /** One word with two faults that hold it alike: the operation tells them apart exactly
      when they miss different bits. */
  lemma OperationTells(op: Op, o: bv64, z: bv64, o': bv64, z': bv64, v: bv64, q: bv64)
    requires Held(o, z, v) == v && Held(o', z', v) == v
    ensures Held(o, z, Apply(op, v, q)) == Held(o', z', Apply(op, v, q)) <==> Missed(op, o, z, q) == Missed(op, o', z', q)
  {
    if Missed(op, o, z, q) == Missed(op, o', z', q) {
      SameMissed(op, o, z, o', z', v, q);
    }
    if Held(o, z, Apply(op, v, q)) == Held(o', z', Apply(op, v, q)) {
      SameHeld(op, o, z, o', z', v, q);
    }
  }

  lemma WordTells(op: Op, o: bv64, z: bv64, o': bv64, z': bv64, v: bv64, q: bv64, a: bv64, b: bv64)
    requires Held(o, z, v) == v && Held(o', z', v) == v
    requires a == Held(o, z, Apply(op, v, q)) && b == Held(o', z', Apply(op, v, q))
    ensures a == b <==> Missed(op, o, z, q) == Missed(op, o', z', q)
  {
    OperationTells(op, o, z, o', z', v, q);
  }

  /** Word i before and after the operation. */
  predicate ModifiedAt(op: Op, a: seq<bv64>, faults: seq<Fault>, was: seq<bv64>, q: bv64, i: nat)
    requires i < |a| == |faults| == |was|
  {
    was[i] == Stored(faults[i], was[i]) && a[i] == Stored(faults[i], Apply(op, was[i], q))
  }

  lemma WordHeld(op: Op, a: seq<bv64>, faults: seq<Fault>, was: seq<bv64>, q: bv64, i: nat)
    requires i < |a| == |faults| == |was| && ModifiedAt(op, a, faults, was, q, i)
    ensures Held(faults[i].ones, faults[i].zeros, was[i]) == was[i]
    ensures a[i] == Held(faults[i].ones, faults[i].zeros, Apply(op, was[i], q))
  {
  }

  lemma WordShows(op: Op, fa: seq<Fault>, fb: seq<Fault>, was: seq<bv64>, q: bv64, a: seq<bv64>, b: seq<bv64>, i: nat)
    requires i < |a| == |b| == |was| == |fa| == |fb|
    requires ModifiedAt(op, a, fa, was, q, i) && ModifiedAt(op, b, fb, was, q, i)
    ensures a[i] == b[i] <==> MissedBits(op, fa, q)[i] == MissedBits(op, fb, q)[i]
  {
    WordHeld(op, a, fa, was, q, i);
    WordHeld(op, b, fb, was, q, i);
    WordTells(op, fa[i].ones, fa[i].zeros, fb[i].ones, fb[i].zeros, was[i], q, a[i], b[i]);
  }

  lemma ModifyOutcome(op: Op, fa: seq<Fault>, fb: seq<Fault>, was: seq<bv64>, q: bv64, a: seq<bv64>, b: seq<bv64>)
    requires |a| == |b| == |was| == |fa| == |fb|
    requires forall i :: 0 <= i < |a| ==> ModifiedAt(op, a, fa, was, q, i) && ModifiedAt(op, b, fb, was, q, i)
    ensures a == b <==> MissedBits(op, fa, q) == MissedBits(op, fb, q)
  {
    forall i | 0 <= i < |a|
      ensures a[i] == b[i] <==> MissedBits(op, fa, q)[i] == MissedBits(op, fb, q)[i]
    {
      WordShows(op, fa, fb, was, q, a, b, i);
    }
    EqualTogether(a, b, MissedBits(op, fa, q), MissedBits(op, fb, q));
  }

  /** All ones where the round and the word number agree in parity, all zeros elsewhere. */
  function Solid(j: nat, i: nat): bv64 {
    if (i + j) % 2 == 0 then ONEBITS else 0
  }

  lemma SolidValue(j: nat, i: nat, q: bv64)
    requires q == if j % 2 == 0 then ONEBITS else 0
    ensures (if i % 2 == 0 then q else !q) == Solid(j, i)
  {
    Parity(i, j);
  }

  lemma Parity(i: nat, j: nat)
    ensures (i + j) % 2 == 0 <==> i % 2 == j % 2
  {
  }

  ghost predicate SameInRound(fa: seq<Fault>, fb: seq<Fault>, j: nat) {
    |fa| == |fb| && forall i :: 0 <= i < |fa| ==> Stored(fa[i], Solid(j, i)) == Stored(fb[i], Solid(j, i))
  }

  ghost predicate SameInAll(fa: seq<Fault>, fb: seq<Fault>, rounds: nat) {
    forall j :: 0 <= j < rounds ==> SameInRound(fa, fb, j)
  }

  lemma HalvesEqual(fa: seq<Fault>, fb: seq<Fault>, a: seq<bv64>, b: seq<bv64>, j: nat)
    requires |fa| == |fb| == |a| == |b|
    requires forall i :: 0 <= i < |a| ==> a[i] == Stored(fa[i], Solid(j, i)) && b[i] == Stored(fb[i], Solid(j, i))
    ensures a == b <==> SameInRound(fa, fb, j)
  {
    assert a == b ==> forall i :: 0 <= i < |a| ==> a[i] == b[i];
  }

  lemma FaultFromReads(f: Fault, g: Fault)
    requires Proper(f) && Proper(g)
    ensures Stored(f, 0) == Stored(g, 0) && Stored(f, ONEBITS) == Stored(g, ONEBITS) <==> f == g
  {
  }

  /** With at least two rounds the solid-bits test finds every fault, except one that is the
      same in both halves. */
  lemma SolidBitsFindsDifferences(fa: seq<Fault>, fb: seq<Fault>, rounds: nat)
    requires |fa| == |fb| && 2 <= rounds
    requires forall i :: 0 <= i < |fa| ==> Proper(fa[i]) && Proper(fb[i])
    ensures SameInAll(fa, fb, rounds) <==> fa == fb
  {
    if SameInAll(fa, fb, rounds) {
      forall i | 0 <= i < |fa|
        ensures fa[i] == fb[i]
      {
        assert SameInRound(fa, fb, 0) && SameInRound(fa, fb, 1);
        assert {Solid(0, i), Solid(1, i)} == {0, ONEBITS};
        FaultFromReads(fa[i], fb[i]);
      }
    }
  }

  /** A single stuck bit in either half makes the test fail. */
  lemma StuckBitIsFound(n: nat, at: nat, fault: Fault, inA: bool, rounds: nat)
    requires at < n && fault != HEALTHY && Proper(fault) && 2 <= rounds
    ensures var healthy := seq(n, _ => HEALTHY);
            var faulty := healthy[at := fault];
            !SameInAll(if inA then faulty else healthy, if inA then healthy else faulty, rounds)
  {
    var healthy := seq(n, _ => HEALTHY);
    var faulty := healthy[at := fault];
    assert faulty[at] != healthy[at];
    SolidBitsFindsDifferences(if inA then faulty else healthy, if inA then healthy else faulty, rounds);
  }
}
