/** The register permissions of the secure monitor
    (secmon_smc_register_access.cpp): a bitmap with one bit a 32-bit register is
    trimmed to its non-zero bytes, and addresses are looked up in the trimmed form. */
module RegisterBitmap {
  import opened MachineInts

  // ---- Bits of a byte ---------------------------------------------------------------

  function Mask(k: nat): bv8
    requires k < 8
  {
    match k
    case 0 => 1
    case 1 => 2
    case 2 => 4
    case 3 => 8
    case 4 => 16
    case 5 => 32
    case 6 => 64
    case 7 => 128
  }

  predicate Bit(b: bv8, k: nat)
    requires k < 8
  {
    b & Mask(k) != 0
  }

  /** Register 0 of a byte is its lowest bit, and each next one is a bit higher. */
  lemma LowestBitFirst(k: nat)
    requires k < 7
    ensures Mask(0) == 1 && Mask(k + 1) == Mask(k) + Mask(k)
  {
  }

  lemma BitOfOr(b: bv8, k: nat, j: nat)
    requires k < 8 && j < 8
    ensures Bit(b | Mask(k), j) <==> j == k || Bit(b, j)
  {
  }

  lemma SomeBit(b: bv8) returns (k: nat)
    requires b != 0
    ensures k < 8 && Bit(b, k)
  {
    k := if Bit(b, 0) then 0 else if Bit(b, 1) then 1 else if Bit(b, 2) then 2 else if Bit(b, 3) then 3
         else if Bit(b, 4) then 4 else if Bit(b, 5) then 5 else if Bit(b, 6) then 6 else 7;
  }

  // ---- The raw table ----------------------------------------------------------------

  /** Whether the bitmap has word w, that is the register at offset 4*w. */
  predicate Has(table: seq<bv8>, w: nat) {
    w / 8 < |table| && Bit(table[w / 8], w % 8)
  }

  /** Every word of the table lies below w. */
  ghost predicate AllBelow(table: seq<bv8>, w: nat) {
    forall v: nat :: Has(table, v) ==> v < w
  }

  /** The checks of SetRegisterTableAllowed: the bit is clear, no higher bit of its byte is
      set, and all later bytes are zero. */
  predicate OrderChecks(table: seq<bv8>, w: nat)
    requires w / 8 < |table|
  {
    && !Bit(table[w / 8], w % 8)
    && (forall k :: w % 8 < k < 8 ==> !Bit(table[w / 8], k))
    && (forall i :: w / 8 < i < |table| ==> table[i] == 0)
  }

  lemma OrderChecksMeanAbove(table: seq<bv8>, w: nat)
    requires w / 8 < |table|
    ensures OrderChecks(table, w) <==> AllBelow(table, w)
  {
    if AllBelow(table, w) {
      assert Has(table, w) <==> Bit(table[w / 8], w % 8);
      forall k | w % 8 < k < 8
        ensures !Bit(table[w / 8], k)
      {
        assert Has(table, w / 8 * 8 + k) <==> Bit(table[w / 8], k);
      }
      forall i | w / 8 < i < |table|
        ensures table[i] == 0
      {
        ZeroByte(table, w, i);
      }
    }
    if OrderChecks(table, w) {
      forall v: nat | Has(table, v)
        ensures v < w
      {
        BelowByChecks(table, w, v);
      }
    }
  }

  lemma ZeroByte(table: seq<bv8>, w: nat, i: nat)
    requires AllBelow(table, w) && w / 8 < i < |table|
    ensures table[i] == 0
  {
    if table[i] != 0 {
      var k := SomeBit(table[i]);
      assert Has(table, i * 8 + k);
    }
  }

  lemma BelowByChecks(table: seq<bv8>, w: nat, v: nat)
    requires w / 8 < |table| && OrderChecks(table, w) && Has(table, v)
    ensures v < w
  {
    var k, bit := v % 8, w % 8;
    assert v / 8 == w / 8 ==> k < bit;
  }

  function Allowed(table: seq<bv8>, w: nat): (r: seq<bv8>)
    requires w / 8 < |table|
    ensures |r| == |table|
  {
    table[w / 8 := table[w / 8] | Mask(w % 8)]
  }

  lemma AllowedHas(table: seq<bv8>, w: nat, v: nat)
    requires w / 8 < |table|
    ensures Has(Allowed(table, w), v) <==> v == w || Has(table, v)
  {
    if v / 8 == w / 8 {
      BitOfOr(table[w / 8], w % 8, v % 8);
    }
  }

  /** A register must be aligned, inside the table and above all registers already there;
      then exactly its bit is added. */
  method SetRegisterTableAllowed(arr: array<bv8>, reg: nat)
    requires reg % 4 == 0 && reg / 4 / 8 < arr.Length
    requires OrderChecks(arr[..], reg / 4)
    modifies arr
    ensures forall v: nat :: Has(arr[..], v) <==> v == reg / 4 || Has(old(arr[..]), v)
    ensures arr[..] == Allowed(old(arr[..]), reg / 4)
  {
    var word := reg / 4;
    var index := word / 8;
    var mask := Mask(word % 8);
    ghost var before := arr[..];
    arr[index] := arr[index] | mask;
    forall v: nat
      ensures Has(Allowed(before, word), v) <==> v == word || Has(before, v)
    {
      AllowedHas(before, word, v);
    }
    assert arr[..] == Allowed(before, word);
  }

  ghost predicate Ascending(words: seq<nat>) {
    forall i, j :: 0 <= i < j < |words| ==> words[i] < words[j]
  }

  /** The table after a list of SetRegisterTableAllowed calls on an array of n zero bytes. */
  function RawTable(n: nat, words: seq<nat>): (table: seq<bv8>)
    requires forall i :: 0 <= i < |words| ==> words[i] / 8 < n
    ensures |table| == n
  {
    if words == [] then seq(n, _ => 0)
    else Allowed(RawTable(n, words[..|words| - 1]), words[|words| - 1])
  }

  /** The raw table holds exactly the listed registers. */
  lemma {:induction false} RawTableHas(n: nat, words: seq<nat>, w: nat)
    requires forall i :: 0 <= i < |words| ==> words[i] / 8 < n
    ensures Has(RawTable(n, words), w) <==> w in words
  {
    if words != [] {
      var last := |words| - 1;
      RawTableHas(n, words[..last], w);
      AllowedHas(RawTable(n, words[..last]), words[last], w);
    }
  }

  /** The order checks of SetRegisterTableAllowed accept exactly the ascending lists. */
  lemma OrderChecksMeanAscending(n: nat, words: seq<nat>)
    requires forall i :: 0 <= i < |words| ==> words[i] / 8 < n
    ensures Ascending(words) <==>
              forall i :: 0 <= i < |words| ==> OrderChecks(RawTable(n, words[..i]), words[i])
  {
    forall i | 0 <= i < |words|
      ensures OrderChecks(RawTable(n, words[..i]), words[i]) <==> Above(words, i)
    {
      OrderChecksMeanAbove(RawTable(n, words[..i]), words[i]);
      forall w: nat
        ensures Has(RawTable(n, words[..i]), w) <==> w in words[..i]
      {
        RawTableHas(n, words[..i], w);
      }
      if AllBelow(RawTable(n, words[..i]), words[i]) {
        forall j | 0 <= j < i
          ensures words[j] < words[i]
        {
          assert words[j] in words[..i];
        }
      }
    }
    if forall i :: 0 <= i < |words| ==> OrderChecks(RawTable(n, words[..i]), words[i]) {
      assert forall i :: 0 <= i < |words| ==> Above(words, i);
    }
    if Ascending(words) {
      assert forall i :: 0 <= i < |words| ==> Above(words, i);
    }
  }

  ghost predicate Above(words: seq<nat>, i: nat)
    requires i < |words|
  {
    forall j :: 0 <= j < i ==> words[j] < words[i]
  }

  // ---- The reduced table ------------------------------------------------------------

  /** arr[start..end] holds every non-zero byte and both its ends are non-zero. */
  predicate Trims(table: seq<bv8>, start: nat, end: nat) {
    && start < end <= |table| && table[start] != 0 && table[end - 1] != 0
    && (forall i :: 0 <= i < start ==> table[i] == 0)
    && (forall i :: end <= i < |table| ==> table[i] == 0)
  }

  method GetReducedAccessTableInfo(arr: seq<bv8>) returns (start: nat, end: nat)
    requires exists i :: 0 <= i < |arr| && arr[i] != 0
    ensures Trims(arr, start, end)
  {
    var last := |arr| - 1;
    while last >= 0
      invariant -1 <= last < |arr|
      invariant forall i :: last < i < |arr| ==> arr[i] == 0
    {
      if arr[last] != 0 {
        end := last + 1;
        start := 0;
        while start < end
          invariant 0 <= start <= end
          invariant forall i :: 0 <= i < start ==> arr[i] == 0
        {
          if arr[start] != 0 {
            return;
          }
          start := start + 1;
        }
        assert false;
      }
      last := last - 1;
    }
    assert false;
  }

  datatype AccessTable = AccessTable(table: seq<bv8>, address: u32, size: nat)

  /** AccessTable<_Address, RawTable>, without the limit on its size. */
  method MakeAccessTable(base: u32, raw: seq<bv8>) returns (t: AccessTable)
    requires exists i :: 0 <= i < |raw| && raw[i] != 0
    ensures exists start, end :: Trims(raw, start, end) && t == Trimmed(base, raw, start, end)
  {
    var start, end := GetReducedAccessTableInfo(raw);
    var reduced := new bv8[end - start](_ => 0);
    var i := start;
    while i < end
      invariant start <= i <= end
      invariant reduced[..i - start] == raw[start..i]
    {
      reduced[i - start] := raw[i];
      i := i + 1;
    }
    t := AccessTable(reduced[..], (base + start * 4 * 8) % TWO_32, reduced.Length * 4 * 8);
  }

  function Trimmed(base: u32, raw: seq<bv8>, start: nat, end: nat): AccessTable
    requires start <= end <= |raw|
  {
    AccessTable(raw[start..end], (base + start * 32) % TWO_32, (end - start) * 32)
  }

  /** The limit asserted for every table. */
  predicate SizeOk(t: AccessTable) { t.size <= 0x1000 && t.size == |t.table| * 32 }

  // ---- Lookup -----------------------------------------------------------------------

  /** The sum of address and size is a 32-bit one. That the table is indexed within its
      bounds is part of this function being well formed. */
  predicate IsAccessAllowed(entry: AccessTable, address: nat)
    requires SizeOk(entry)
  {
    if !(entry.address <= address < (entry.address + entry.size) % TWO_32) then false else
    var offset := address - entry.address;
    var regIndex := offset / 4;
    var index := regIndex / 8;
    if index >= entry.size / 4 then false else
    Bit(entry.table[index], regIndex % 8)
  }

  /** The trimmed table answers as the raw one does, for every address, unless the trimmed
      region ends exactly at the top of the 32-bit space: then the 32-bit sum is zero and
      every access is refused. */
  lemma TrimmedRefinesRaw(base: u32, raw: seq<bv8>, start: nat, end: nat, address: nat)
    requires base + |raw| * 32 <= TWO_32 && Trims(raw, start, end) && (end - start) * 32 <= 0x1000
    ensures SizeOk(Trimmed(base, raw, start, end))
    ensures IsAccessAllowed(Trimmed(base, raw, start, end), address) <==>
              base <= address && Has(raw, (address - base) / 4) && base + end * 32 != TWO_32
  {
    if base + start * 32 <= address < base + end * 32 {
      InsideTrimmed(base, raw, start, end, address - (base + start * 32));
    } else {
      OutsideTrimmed(base, raw, start, end, address);
    }
  }

  lemma InsideTrimmed(base: u32, raw: seq<bv8>, start: nat, end: nat, offset: nat)
    requires base + |raw| * 32 <= TWO_32 && start < end <= |raw| && offset < (end - start) * 32 <= 0x1000
    ensures IsAccessAllowed(Trimmed(base, raw, start, end), base + start * 32 + offset) <==>
              Has(raw, (base + start * 32 + offset - base) / 4) && base + end * 32 != TWO_32
  {
    LookupInside(Trimmed(base, raw, start, end), offset);
    SameWord(base, start, offset);
    SliceHas(raw, start, end, offset / 4);
  }

  lemma LookupInside(t: AccessTable, offset: nat)
    requires SizeOk(t) && offset < t.size && t.address + t.size <= TWO_32
    ensures IsAccessAllowed(t, t.address + offset) <==> Has(t.table, offset / 4) && t.address + t.size != TWO_32
  {
  }

  lemma SliceHas(raw: seq<bv8>, start: nat, end: nat, w: nat)
    requires start <= end <= |raw| && w / 8 < end - start
    ensures Has(raw[start..end], w) <==> Has(raw, w + 8 * start)
  {
    assert (w + 8 * start) / 8 == w / 8 + start && (w + 8 * start) % 8 == w % 8;
  }

  lemma SameWord(base: nat, start: nat, offset: nat)
    ensures (base + start * 32 + offset - base) / 4 == offset / 4 + 8 * start
  {
  }

  lemma OutsideTrimmed(base: u32, raw: seq<bv8>, start: nat, end: nat, address: nat)
    requires base + |raw| * 32 <= TWO_32 && Trims(raw, start, end) && (end - start) * 32 <= 0x1000
    requires !(base + start * 32 <= address < base + end * 32)
    ensures !IsAccessAllowed(Trimmed(base, raw, start, end), address)
    ensures base <= address ==> !Has(raw, (address - base) / 4)
  {
    RefusedOutside(Trimmed(base, raw, start, end), address);
    if base <= address {
      OutsideRegion(base, start, end, address);
      NotKept(raw, start, end, (address - base) / 4);
    }
  }

  lemma RefusedOutside(t: AccessTable, address: nat)
    requires SizeOk(t) && t.address + t.size <= TWO_32 && !(t.address <= address < t.address + t.size)
    ensures !IsAccessAllowed(t, address)
  {
  }

  lemma NotKept(raw: seq<bv8>, start: nat, end: nat, w: nat)
    requires Trims(raw, start, end) && !(start <= w / 8 < end)
    ensures !Has(raw, w)
  {
  }

  /** An address outside the trimmed region has its word outside the kept bytes. */
  lemma OutsideRegion(base: nat, start: nat, end: nat, address: nat)
    requires base <= address && !(base + start * 32 <= address < base + end * 32)
    ensures !(start <= (address - base) / 4 / 8 < end)
  {
  }

  lemma TrimmedRefinesWord(base: u32, raw: seq<bv8>, start: nat, end: nat, w: nat)
    requires base + |raw| * 32 < TWO_32 && Trims(raw, start, end) && (end - start) * 32 <= 0x1000
    ensures SizeOk(Trimmed(base, raw, start, end))
    ensures IsAccessAllowed(Trimmed(base, raw, start, end), base + w * 4) <==> Has(raw, w)
  {
    var address := base + w * 4;
    assert (address - base) / 4 == w;
    TrimmedRefinesRaw(base, raw, start, end, address);
  }

  /** For a list of registers: an aligned address is accepted exactly when it is listed. */
  lemma OnlyListedRegisters(base: u32, n: nat, words: seq<nat>, start: nat, end: nat, reg: nat)
    requires base + n * 32 < TWO_32 && base % 4 == 0
    requires forall i :: 0 <= i < |words| ==> words[i] / 8 < n
    requires Trims(RawTable(n, words), start, end) && (end - start) * 32 <= 0x1000
    ensures SizeOk(Trimmed(base, RawTable(n, words), start, end))
    ensures IsAccessAllowed(Trimmed(base, RawTable(n, words), start, end), base + reg * 4) <==> reg in words
  {
    RawTableHas(n, words, reg);
    TrimmedRefinesWord(base, RawTable(n, words), start, end, reg);
  }

  /** A list is trimmed to the bytes of its lowest and highest register. */
  lemma TrimsToList(n: nat, words: seq<nat>, start: nat, end: nat)
    requires forall i :: 0 <= i < |words| ==> words[i] / 8 < n
    requires Ascending(words) && Trims(RawTable(n, words), start, end)
    ensures words != [] && start == words[0] / 8 && end == words[|words| - 1] / 8 + 1
  {
    var w := SomeListed(n, words, start);
    StartsAtFirst(n, words, start);
    EndsAtLast(n, words, end);
  }

  lemma SomeListed(n: nat, words: seq<nat>, i: nat) returns (w: nat)
    requires forall i :: 0 <= i < |words| ==> words[i] / 8 < n
    requires i < n && RawTable(n, words)[i] != 0
    ensures w in words && w / 8 == i
  {
    var k := SomeBit(RawTable(n, words)[i]);
    w := 8 * i + k;
    assert Has(RawTable(n, words), w);
    RawTableHas(n, words, w);
  }

  lemma StartsAtFirst(n: nat, words: seq<nat>, start: nat)
    requires forall i :: 0 <= i < |words| ==> words[i] / 8 < n
    requires Ascending(words) && words != [] && start < n && RawTable(n, words)[start] != 0
    requires forall i :: 0 <= i < start ==> RawTable(n, words)[i] == 0
    ensures start == words[0] / 8
  {
    var low := SomeListed(n, words, start);
    FirstAndLast(words, low);
    RawTableHas(n, words, words[0]);
    NotZero(RawTable(n, words), words[0]);
  }

  lemma EndsAtLast(n: nat, words: seq<nat>, end: nat)
    requires forall i :: 0 <= i < |words| ==> words[i] / 8 < n
    requires Ascending(words) && words != [] && 0 < end <= n && RawTable(n, words)[end - 1] != 0
    requires forall i :: end <= i < n ==> RawTable(n, words)[i] == 0
    ensures end == words[|words| - 1] / 8 + 1
  {
    var high := SomeListed(n, words, end - 1);
    FirstAndLast(words, high);
    RawTableHas(n, words, words[|words| - 1]);
    NotZero(RawTable(n, words), words[|words| - 1]);
  }

  lemma NotZero(table: seq<bv8>, w: nat)
    requires Has(table, w)
    ensures table[w / 8] != 0
  {
  }

  lemma FirstAndLast(words: seq<nat>, w: nat)
    requires Ascending(words) && w in words
    ensures words[0] <= w <= words[|words| - 1]
  {
    var i :| 0 <= i < |words| && words[i] == w;
    assert i == 0 || words[0] < words[i];
    assert i == |words| - 1 || words[i] < words[|words| - 1];
  }

  /** The first table that allows the address. */
  method GetAccessTableEntry(tables: seq<AccessTable>, address: nat) returns (entry: Option<nat>)
    requires forall t :: t in tables ==> SizeOk(t)
    ensures entry.Some? ==>
              && entry.value < |tables| && IsAccessAllowed(tables[entry.value], address)
              && forall i :: 0 <= i < entry.value ==> !IsAccessAllowed(tables[i], address)
    ensures entry.None? <==> forall i :: 0 <= i < |tables| ==> !IsAccessAllowed(tables[i], address)
  {
    for k := 0 to |tables|
      invariant forall i :: 0 <= i < k ==> !IsAccessAllowed(tables[i], address)
    {
      if IsAccessAllowed(tables[k], address) {
        return Some(k);
      }
    }
    entry := None;
  }
}
