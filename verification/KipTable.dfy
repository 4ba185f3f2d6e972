/** The configuration table inside the loader's KIP file (kip.hpp): a chunked search for
    the magic word, and reading and rewriting the table in place. */
module KipTable {
  import opened MachineInts

  type Bytes = seq<u8>

  const MAGIC: Bytes := [0x43, 0x55, 0x53, 0x54]  // "CUST"
  const MAGIC_LEN := 4
  const CHUNK := 512
  const TABLE_SIZE := 656
  const ERISTA_GPU_VOLT := 51     // word index of eristaGpuVoltArray[27]
  const MARIKO_GPU_VOLT := 78     // word index of marikoGpuVoltArray[24]

  // ---- Where the table is -----------------------------------------------------------

  predicate MagicAt(s: Bytes, i: nat) {
    i + MAGIC_LEN <= |s| && s[i..i + MAGIC_LEN] == MAGIC
  }

  ghost predicate NoMagicBefore(s: Bytes, end: nat) {
    forall i: nat :: i < end ==> !MagicAt(s, i)
  }

  /** off is the first occurrence of the magic word. */
  ghost predicate Located(s: Bytes, off: nat) {
    MagicAt(s, off) && NoMagicBefore(s, off)
  }

  /** A table can be read and written: its magic word is found and it fits into the file. */
  ghost predicate Reachable(s: Bytes, off: nat) {
    Located(s, off) && off + TABLE_SIZE <= |s|
  }

  lemma LocatedOnce(s: Bytes, i: nat, j: nat)
    requires Located(s, i) && Located(s, j)
    ensures i == j
  {
    assert !(i < j) && !(j < i);
  }

  function Overwritten(s: Bytes, off: nat, table: Bytes): Bytes
    requires off + |table| <= |s|
  {
    s[..off] + table + s[off + |table|..]
  }

  /** Writing a table with the magic word at its head does not move the table: no
      occurrence can arise that straddles its start. */
  lemma StaysLocated(s: Bytes, off: nat, table: Bytes)
    requires Reachable(s, off) && |table| == TABLE_SIZE && MagicAt(table, 0)
    ensures Reachable(Overwritten(s, off, table), off)
  {
    var t := Overwritten(s, off, table);
    assert t[off..off + MAGIC_LEN] == table[0..MAGIC_LEN];
    forall i: nat | i < off
      ensures !MagicAt(t, i)
    {
      assert !MagicAt(s, i);
      forall k | i <= k < i + MAGIC_LEN
        ensures t[k] == s[k]
      {
        if k >= off {
          assert table[k - off] == table[0..MAGIC_LEN][k - off];
          assert s[k] == s[off..off + MAGIC_LEN][k - off];
        }
      }
      assert t[i..i + MAGIC_LEN] == s[i..i + MAGIC_LEN];
    }
  }

  // ---- Words ------------------------------------------------------------------------

  function Joined(b0: nat, b1: nat, b2: nat, b3: nat): nat {
    b0 + 0x100 * b1 + 0x1_0000 * b2 + 0x100_0000 * b3
  }

  /** The little-endian word w of a table. */
  function Word(table: Bytes, w: nat): nat
    requires 4 * w + 4 <= |table|
  {
    Joined(table[4 * w], table[4 * w + 1], table[4 * w + 2], table[4 * w + 3])
  }

  function WithWord(table: Bytes, w: nat, v: u32): (r: Bytes)
    requires 4 * w + 4 <= |table|
    ensures |r| == |table|
  {
    table[4 * w := v % 0x100][4 * w + 1 := v / 0x100 % 0x100]
         [4 * w + 2 := v / 0x1_0000 % 0x100][4 * w + 3 := v / 0x100_0000]
  }

  lemma JoinedSplit(v: u32)
    ensures Joined(v % 0x100, v / 0x100 % 0x100, v / 0x1_0000 % 0x100, v / 0x100_0000) == v
  {
    assert v / 0x1_0000 == v / 0x100 / 0x100 && v / 0x100_0000 == v / 0x100 / 0x100 / 0x100;
  }

  lemma WordOfWithWord(table: Bytes, w: nat, v: u32, u: nat)
    requires 4 * w + 4 <= |table| && 4 * u + 4 <= |table|
    ensures Word(WithWord(table, w, v), u) == if u == w then v else Word(table, u)
  {
    if u == w {
      JoinedSplit(v);
    } else {
      KeepsOthers(table, w, v, u);
    }
  }

  lemma KeepsOthers(table: Bytes, w: nat, v: u32, u: nat)
    requires 4 * w + 4 <= |table| && 4 * u + 4 <= |table| && u != w
    ensures WithWord(table, w, v)[4 * u..4 * u + 4] == table[4 * u..4 * u + 4]
    ensures Word(WithWord(table, w, v), u) == Word(table, u)
  {
    var r := WithWord(table, w, v);
    assert forall k :: 4 * u <= k < 4 * u + 4 ==> r[k] == table[k];
  }

  // ---- The file ---------------------------------------------------------------------

  /** A file with a read position, as stdio presents it; fopen fails when it is absent. */
  class KipFile {
    var present: bool
    var content: Bytes
    var position: nat

    constructor (present: bool, content: Bytes)
      ensures this.present == present && this.content == content
    {
      this.present, this.content, position := present, content, 0;
    }

    method Seek(pos: nat)
      modifies this`position
      ensures position == pos
    {
      position := pos;
    }

    method Read(size: nat) returns (chunk: Bytes)
      modifies this`position
      ensures chunk == if old(position) >= |content| then []
                       else if old(position) + size <= |content| then content[old(position)..old(position) + size]
                       else content[old(position)..]
      ensures position == old(position) + |chunk|
    {
      chunk := if position >= |content| then []
      else if position + size <= |content| then content[position..position + size]
      else content[position..];
      position := position + |chunk|;
    }

    /** Overwrites inside the file. */
    method Write(bytes: Bytes)
      requires position + |bytes| <= |content|
      modifies this
      ensures content == Overwritten(old(content), old(position), bytes) && present == old(present)
      ensures position == old(position) + |bytes|
    {
      content := Overwritten(content, position, bytes);
      position := position + |bytes|;
    }

    /** cust_find_offset: finds the first occurrence, and fails only when there is none. */
    method FindOffset() returns (offset: Option<nat>)
      modifies this`position
      ensures offset.Some? ==> Located(content, offset.value)
      ensures offset.None? ==> NoMagicBefore(content, |content|)
    {
      var pos := 0;
      Seek(0);
      while true
        invariant position == pos <= |content|
        invariant NoMagicBefore(content, pos)
        decreases |content| - pos
      {
        var buf := Read(CHUNK);
        if |buf| < MAGIC_LEN {
          assert NoMagicBefore(content, |content|);
          break;
        }
        var i := 0;
        while i <= |buf| - MAGIC_LEN
          invariant 0 <= i <= |buf| - MAGIC_LEN + 1
          invariant NoMagicBefore(content, pos + i)
        {
          assert buf[i..i + MAGIC_LEN] == content[pos + i..pos + i + MAGIC_LEN];
          if buf[i..i + MAGIC_LEN] == MAGIC {
            return Some(pos + i);
          }
          assert !MagicAt(content, pos + i);
          i := i + 1;
        }
        pos := pos + (|buf| - (MAGIC_LEN - 1));
        Seek(pos);
      }
      offset := None;
    }

    /** cust_read_table: the table at the first magic word, if there is room for one. */
    method ReadTable() returns (table: Option<Bytes>)
      modifies this`position
      ensures table.Some? ==>
                present && exists off: nat :: Reachable(content, off) && table.value == content[off..off + TABLE_SIZE]
      ensures table.None? ==> !present || forall off: nat :: !Reachable(content, off)
    {
      if !present {
        return None;
      }
      var found := FindOffset();
      if found.None? {
        return None;
      }
      var off := found.value;
      Unreachable(content, off);
      if off + TABLE_SIZE > |content| {
        return None;
      }
      Seek(off);
      var out := Read(TABLE_SIZE);
      assert out == content[off..off + TABLE_SIZE];
      PrefixOfSlice(content, off, TABLE_SIZE, MAGIC_LEN);
      assert Reachable(content, off);
      table := if out[..MAGIC_LEN] == MAGIC then Some(out) else None;
    }

    /** cust_write_table: replaces exactly the bytes of the table that is there. */
    method WriteTable(table: Bytes) returns (ok: bool)
      requires |table| == TABLE_SIZE
      modifies this
      ensures present == old(present)
      ensures ok ==> old(present) && exists off: nat :: Reachable(old(content), off)
                                                && content == Overwritten(old(content), off, table)
      ensures !ok ==> content == old(content) && (!present || forall off: nat :: !Reachable(content, off))
    {
      if !present {
        return false;
      }
      var found := FindOffset();
      if found.None? {
        return false;
      }
      var off := found.value;
      Unreachable(content, off);
      if off + TABLE_SIZE > |content| {
        return false;
      }
      Seek(off);
      Write(table);
      ok := true;
    }

    /** CUST_WRITE_FIELD for the field at word w: only that word of the table changes. */
    method SetField(w: nat, v: u32) returns (ok: bool)
      requires 1 <= w < TABLE_SIZE / 4
      modifies this
      ensures present == old(present)
      ensures ok ==> old(present) && exists off: nat :: Reachable(old(content), off)
                                                && content == FieldSet(old(content), off, w, v)
      ensures !ok ==> content == old(content) && (!present || forall off: nat :: !Reachable(content, off))
    {
      var read := ReadTable();
      if read.None? {
        return false;
      }
      var t := read.value;
      ghost var off: nat :| Reachable(content, off) && t == content[off..off + TABLE_SIZE];
      t := WithWord(t, w, v);
      ok := WriteTable(t);
      if ok {
        ghost var o: nat :| Reachable(old(content), o) && content == Overwritten(old(content), o, t);
        LocatedOnce(old(content), o, off);
      }
    }

    /** cust_set_erista_gpu_volt: an index outside the array changes nothing. */
    method SetEristaGpuVolt(idx: int, v: u32) returns (ok: bool)
      modifies this
      ensures present == old(present)
      ensures ok ==>
        && 0 <= idx < 27 && old(present)
        && exists off: nat :: Reachable(old(content), off) && content == FieldSet(old(content), off, ERISTA_GPU_VOLT + idx, v)
      ensures !ok ==> content == old(content)
      ensures !ok ==> !(0 <= idx < 27) || !present || forall off: nat :: !Reachable(content, off)
    {
      if idx < 0 || idx >= 27 {
        return false;
      }
      ok := SetField(ERISTA_GPU_VOLT + idx, v);
    }

    /** cust_set_mariko_gpu_volt. */
    method SetMarikoGpuVolt(idx: int, v: u32) returns (ok: bool)
      modifies this
      ensures present == old(present)
      ensures ok ==>
        && 0 <= idx < 24 && old(present)
        && exists off: nat :: Reachable(old(content), off) && content == FieldSet(old(content), off, MARIKO_GPU_VOLT + idx, v)
      ensures !ok ==> content == old(content)
      ensures !ok ==> !(0 <= idx < 24) || !present || forall off: nat :: !Reachable(content, off)
    {
      if idx < 0 || idx >= 24 {
        return false;
      }
      ok := SetField(MARIKO_GPU_VOLT + idx, v);
    }
  }

  lemma PrefixOfSlice(s: Bytes, off: nat, n: nat, m: nat)
    requires m <= n && off + n <= |s|
    ensures s[off..off + n][..m] == s[off..off + m]
  {
  }

  lemma Unreachable(s: Bytes, off: nat)
    requires Located(s, off)
    ensures off + TABLE_SIZE > |s| ==> forall o: nat :: !Reachable(s, o)
  {
    forall o: nat | Located(s, o)
      ensures o == off
    {
      LocatedOnce(s, o, off);
    }
  }

  /** The file after one field of its table was set. */
  function FieldSet(s: Bytes, off: nat, w: nat, v: u32): Bytes
    requires off + TABLE_SIZE <= |s| && w < TABLE_SIZE / 4
  {
    Overwritten(s, off, WithWord(s[off..off + TABLE_SIZE], w, v))
  }

  // ---- Main results -----------------------------------------------------------------

  /** Writing a table and reading it back gives that table, exactly when the table has the
      magic word at its head; the size and all bytes outside the table stay in any case. */
  lemma WriteThenRead(s: Bytes, off: nat, table: Bytes)
    requires Reachable(s, off) && |table| == TABLE_SIZE
    ensures var t := Overwritten(s, off, table);
            && |t| == |s|
            && (forall i :: 0 <= i < |s| && !(off <= i < off + TABLE_SIZE) ==> t[i] == s[i])
            && (MagicAt(table, 0) <==> exists o: nat :: Reachable(t, o) && t[o..o + TABLE_SIZE] == table)
            && (MagicAt(table, 0) <==> Reachable(t, off))
  {
    var t := Overwritten(s, off, table);
    assert t[off..off + TABLE_SIZE] == table;
    assert t[off..off + MAGIC_LEN] == table[0..MAGIC_LEN];
    if MagicAt(table, 0) {
      StaysLocated(s, off, table);
    }
    forall o: nat | Reachable(t, o) && t[o..o + TABLE_SIZE] == table
      ensures MagicAt(table, 0)
    {
      assert t[o..o + MAGIC_LEN] == table[0..MAGIC_LEN];
    }
  }

  /** The four bytes of the field stand in the file with the low byte first. */
  lemma FieldBytes(s: Bytes, off: nat, w: nat, v: u32)
    requires off + TABLE_SIZE <= |s| && w < TABLE_SIZE / 4
    ensures var t, at := FieldSet(s, off, w, v), off + 4 * w;
            && at + 4 <= |t| && t[at] == v % 0x100 && t[at + 1] == v / 0x100 % 0x100
            && t[at + 2] == v / 0x1_0000 % 0x100 && t[at + 3] == v / 0x100_0000
  {
    var t := FieldSet(s, off, w, v);
    assert t[off..off + TABLE_SIZE] == WithWord(s[off..off + TABLE_SIZE], w, v);
  }

  /** Setting a field changes four bytes of the file, leaves the table where it is, gives
      that field its value and keeps every other field. */
  lemma FieldSetThenRead(s: Bytes, off: nat, w: nat, v: u32, u: nat)
    requires Reachable(s, off) && 1 <= w < TABLE_SIZE / 4 && u < TABLE_SIZE / 4
    ensures var t := FieldSet(s, off, w, v);
            && |t| == |s| && Reachable(t, off)
            && (forall i :: 0 <= i < |s| && !(off + 4 * w <= i < off + 4 * w + 4) ==> t[i] == s[i])
            && Word(t[off..off + TABLE_SIZE], u) == if u == w then v else Word(s[off..off + TABLE_SIZE], u)
  {
    var before := s[off..off + TABLE_SIZE];
    var table := WithWord(before, w, v);
    var t := FieldSet(s, off, w, v);
    assert t[off..off + TABLE_SIZE] == table;
    assert table[0..MAGIC_LEN] == s[off..off + MAGIC_LEN];
    StaysLocated(s, off, table);
    WordOfWithWord(before, w, v, u);
  }
}
