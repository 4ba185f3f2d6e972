/** What the lines of config.ini mean (config.cpp: BrowseIniFunc), independently of any
    state: for every title the last accepted value of each clock and the number of accepted
    lines, and for every config value the last one given. */
module ConfigFile {
  import opened MachineInts
  import opened ConfigText

  // ---- Names ------------------------------------------------------------------------

  const PROFILES := 5
  const MODULES := 5
  const VALUES_SECTION := "values"

  function ProfileName(p: nat): string
    requires p < PROFILES
  {
    match p
    case 0 => "handheld"
    case 1 => "handheld_charging"
    case 2 => "handheld_charging_usb"
    case 3 => "handheld_charging_official"
    case 4 => "docked"
  }

  function ModuleName(m: nat): string
    requires m < MODULES
  {
    match m
    case 0 => "cpu"
    case 1 => "gpu"
    case 2 => "mem"
    case 3 => "governor"
    case 4 => "display"
  }

  function KeyName(p: nat, m: nat): string
    requires p < PROFILES && m < MODULES
  {
    ProfileName(p) + "_" + ModuleName(m)
  }

  lemma ModuleNamesAreWords(m: nat)
    requires m < MODULES
    ensures '_' !in ModuleName(m)
  {
  }

  lemma NamesDistinct(a: nat, b: nat)
    requires a < 5 && b < 5
    ensures ProfileName(a) == ProfileName(b) ==> a == b
    ensures ModuleName(a) == ModuleName(b) ==> a == b
  {
    assert |ModuleName(0)| == |ModuleName(1)| == |ModuleName(2)| == 3;
    assert ModuleName(0)[0] == 'c' && ModuleName(1)[0] == 'g' && ModuleName(2)[0] == 'm';
  }

  function LastUnderscore(s: string): int {
    if s == [] then -1 else if s[|s| - 1] == '_' then |s| - 1 else LastUnderscore(s[..|s| - 1])
  }

  lemma {:induction false} LastUnderscoreAt(a: string, b: string)
    requires '_' !in b
    ensures LastUnderscore(a + "_" + b) == |a|
  {
    var s := a + "_" + b;
    if b != [] {
      assert s[..|s| - 1] == a + "_" + b[..|b| - 1];
      LastUnderscoreAt(a, b[..|b| - 1]);
    }
  }

  lemma SplitAtLast(a: string, b: string, c: string, d: string)
    requires a + "_" + b == c + "_" + d && '_' !in b && '_' !in d
    ensures a == c && b == d
  {
    var s := a + "_" + b;
    LastUnderscoreAt(a, b);
    LastUnderscoreAt(c, d);
    assert a == s[..|a|] && c == s[..|c|];
    assert b == s[|a| + 1..] && d == s[|c| + 1..];
  }

  /** A key names at most one clock, although profile names are prefixes of one another. */
  lemma KeysUnambiguous(p: nat, m: nat, q: nat, n: nat)
    requires p < PROFILES && q < PROFILES && m < MODULES && n < MODULES
    requires KeyName(p, m) == KeyName(q, n)
    ensures p == q && m == n
  {
    ModuleNamesAreWords(m);
    ModuleNamesAreWords(n);
    SplitAtLast(ProfileName(p), ModuleName(m), ProfileName(q), ModuleName(n));
    NamesDistinct(p, q);
    NamesDistinct(m, n);
  }

  // ---- Lines ------------------------------------------------------------------------

  datatype Line = Line(section: string, key: string, value: string)

  type Ini = seq<Line>

  /** The title a section stands for; zero when it stands for none. */
  function TitleOf(section: string): u64 {
    if section == VALUES_SECTION || |section| != 16 then 0 else Strtoul(section, 16)
  }

  function SectionOf(tid: u64): string { HexPad(tid, 16) }

  function Mhz(value: string): u32 { Strtoul(value, 10) % TWO_32 }

  /** What a line says about a clock of a title, if anything. */
  function ClockIn(l: Line, tid: u64, p: nat, m: nat): Option<u32>
    requires p < PROFILES && m < MODULES
  {
    if tid != 0 && TitleOf(l.section) == tid && l.key == KeyName(p, m) && Mhz(l.value) != 0 then Some(Mhz(l.value))
    else None
  }

  /** A line gives a clock exactly when its section is a 16-digit nonzero title id, its key
      names the clock and its value is a nonzero number. */
  lemma LineMeans(l: Line, tid: u64, p: nat, m: nat, mhz: u32)
    requires p < PROFILES && m < MODULES
    ensures ClockIn(l, tid, p, m) == Some(mhz) <==>
              && |l.section| == 16 && Strtoul(l.section, 16) == tid && tid != 0
              && l.key == ProfileName(p) + "_" + ModuleName(m)
              && Strtoul(l.value, 10) % TWO_32 == mhz && mhz != 0
  {
    assert |VALUES_SECTION| == 6;
  }

  /** Whether a line is counted for a title. */
  ghost predicate CountedIn(l: Line, tid: u64) {
    exists p, m :: 0 <= p < PROFILES && 0 <= m < MODULES && ClockIn(l, tid, p, m).Some?
  }

  /** Names, validity and defaults of the config values. */
  datatype Schema = Schema(names: seq<string>, valid: (nat, u64) -> bool, default: nat -> u64)

  ghost predicate DistinctNames(c: Schema) {
    forall i, j :: 0 <= i < j < |c.names| ==> c.names[i] != c.names[j]
  }

  function Checked(c: Schema, k: nat, input: u64): u64 {
    if c.valid(k, input) then input else c.default(k)
  }

  function ValueIn(c: Schema, l: Line, k: nat): Option<u64>
    requires k < |c.names|
  {
    if l.section == VALUES_SECTION && l.key == c.names[k] then Some(Checked(c, k, Strtoul(l.value, 0))) else None
  }

  // ---- Files ------------------------------------------------------------------------

  /** The last line that says something wins. */
  function LastOf<T>(f: Line -> Option<T>, file: Ini): Option<T> {
    if file == [] then None
    else var l := f(file[|file| - 1]); if l.Some? then l else LastOf(f, file[..|file| - 1])
  }

  ghost function CountOf(f: Line -> bool, file: Ini): nat {
    if file == [] then 0
    else CountOf(f, file[..|file| - 1]) + if f(file[|file| - 1]) then 1 else 0
  }

  /** What LastOf finds: a line that says it, with none after it that says anything. */
  lemma {:induction false} LastOfMeans<T>(f: Line -> Option<T>, file: Ini, i: nat)
    requires i < |file| && f(file[i]).Some? && forall k :: i < k < |file| ==> f(file[k]).None?
    ensures LastOf(f, file) == f(file[i])
  {
    var last := |file| - 1;
    if i < last {
      assert file[..last][i] == file[i];
      assert forall k :: i < k < last ==> file[..last][k] == file[k];
      LastOfMeans(f, file[..last], i);
    }
  }

  function ClockRule(tid: u64, p: nat, m: nat): Line -> Option<u32>
    requires p < PROFILES && m < MODULES
  {
    (l: Line) => ClockIn(l, tid, p, m)
  }

  ghost function CountRule(tid: u64): Line -> bool {
    (l: Line) => CountedIn(l, tid)
  }

  function ValueRule(c: Schema, k: nat): Line -> Option<u64>
    requires k < |c.names|
  {
    (l: Line) => ValueIn(c, l, k)
  }

  /** The clock in MHz that a file gives to a title; 0 for none. */
  function ClockOf(file: Ini, tid: u64, p: nat, m: nat): u32
    requires p < PROFILES && m < MODULES
  {
    var v: Option<u32> := LastOf<u32>(ClockRule(tid, p, m), file);
    if v.Some? then v.value else 0
  }

  /** The number of clocks of a title as the 8-bit counter has it. */
  ghost function ProfileCountOf(file: Ini, tid: u64): u8 { CountOf(CountRule(tid), file) % 0x100 }

  function ValueOf(c: Schema, file: Ini, k: nat): u64
    requires k < |c.names|
  {
    var v: Option<u64> := LastOf<u64>(ValueRule(c, k), file);
    if v.Some? then v.value else c.default(k)
  }

  // ---- Replacing a section ----------------------------------------------------------

  function Without(file: Ini, section: string): Ini {
    if file == [] then []
    else var rest := Without(file[..|file| - 1], section);
         if file[|file| - 1].section == section then rest else rest + [file[|file| - 1]]
  }

  /** ini_putsection: the section holds exactly the given lines afterwards. */
  function PutSection(file: Ini, section: string, lines: Ini): Ini {
    Without(file, section) + lines
  }

  /** What is left without a section: the lines of the others, in their order. */
  lemma {:induction false} WithoutMeans(file: Ini, section: string)
    ensures forall l: Line :: l in Without(file, section) <==> l in file && l.section != section
    ensures |Without(file, section)| <= |file|
    ensures (forall i :: 0 <= i < |file| ==> file[i].section != section) ==> Without(file, section) == file
  {
    if file != [] {
      var init, last := file[..|file| - 1], file[|file| - 1];
      WithoutMeans(init, section);
      assert file == init + [last];
      assert forall i :: 0 <= i < |init| ==> init[i] == file[i];
    }
  }

  lemma {:induction false} LastOfAppend<T>(f: Line -> Option<T>, a: Ini, b: Ini)
    ensures LastOf(f, a + b) == if LastOf(f, b).Some? then LastOf(f, b) else LastOf(f, a)
  {
    if b == [] {
      assert a + b == a;
    } else {
      assert (a + b)[..|a + b| - 1] == a + b[..|b| - 1];
      LastOfAppend(f, a, b[..|b| - 1]);
    }
  }

  lemma {:induction false} CountOfAppend(f: Line -> bool, a: Ini, b: Ini)
    ensures CountOf(f, a + b) == CountOf(f, a) + CountOf(f, b)
  {
    if b == [] {
      assert a + b == a;
    } else {
      assert (a + b)[..|a + b| - 1] == a + b[..|b| - 1];
      CountOfAppend(f, a, b[..|b| - 1]);
    }
  }

  lemma LastOfOne<T>(f: Line -> Option<T>, a: Ini, l: Line)
    ensures LastOf(f, a + [l]) == if f(l).Some? then f(l) else LastOf(f, a)
  {
    assert (a + [l])[..|a|] == a;
  }

  lemma CountOfOne(f: Line -> bool, a: Ini, l: Line)
    ensures CountOf(f, a + [l]) == CountOf(f, a) + if f(l) then 1 else 0
  {
    assert (a + [l])[..|a|] == a;
  }

  /** Lines that a rule ignores can be removed. */
  lemma {:induction false} LastOfWithout<T>(f: Line -> Option<T>, file: Ini, section: string)
    requires forall l: Line :: l.section == section ==> f(l).None?
    ensures LastOf(f, Without(file, section)) == LastOf(f, file)
  {
    if file != [] {
      var n := |file| - 1;
      LastOfWithout(f, file[..n], section);
      if file[n].section != section {
        assert Without(file, section)[..|Without(file, section)| - 1] == Without(file[..n], section);
      }
    }
  }

  lemma {:induction false} CountOfWithout(f: Line -> bool, file: Ini, section: string)
    requires forall l: Line :: l.section == section ==> !f(l)
    ensures CountOf(f, Without(file, section)) == CountOf(f, file)
  {
    if file != [] {
      var n := |file| - 1;
      CountOfWithout(f, file[..n], section);
      if file[n].section != section {
        assert Without(file, section)[..|Without(file, section)| - 1] == Without(file[..n], section);
      }
    }
  }

  /** A rule that only listens to one section hears nothing once it is removed. */
  lemma {:induction false} NothingWithout<T>(f: Line -> Option<T>, file: Ini, section: string)
    requires forall i :: 0 <= i < |file| && file[i].section != section ==> f(file[i]).None?
    ensures LastOf(f, Without(file, section)) == None
  {
    if file != [] {
      var n := |file| - 1;
      NothingWithout(f, file[..n], section);
      if file[n].section != section {
        assert Without(file, section)[..|Without(file, section)| - 1] == Without(file[..n], section);
      }
    }
  }

  lemma {:induction false} NoneWithout(f: Line -> bool, file: Ini, section: string)
    requires forall i :: 0 <= i < |file| && file[i].section != section ==> !f(file[i])
    ensures CountOf(f, Without(file, section)) == 0
  {
    if file != [] {
      var n := |file| - 1;
      NoneWithout(f, file[..n], section);
      if file[n].section != section {
        assert Without(file, section)[..|Without(file, section)| - 1] == Without(file[..n], section);
      }
    }
  }

  // ---- Canonical files --------------------------------------------------------------

  /** Every section of a title is named the way SetProfiles prints it. */
  ghost predicate Canonical(file: Ini) {
    forall i :: 0 <= i < |file| ==> CanonicalLine(file[i])
  }

  predicate CanonicalLine(l: Line) {
    TitleOf(l.section) == 0 || l.section == SectionOf(TitleOf(l.section))
  }

  lemma TitleOfSection(tid: u64)
    ensures TitleOf(SectionOf(tid)) == tid && SectionOf(tid) != VALUES_SECTION
  {
    HexRoundTrip(tid);
  }

  lemma {:induction false} WithoutIsCanonical(file: Ini, section: string)
    requires Canonical(file)
    ensures Canonical(Without(file, section))
  {
    if file != [] {
      WithoutIsCanonical(file[..|file| - 1], section);
    }
  }

  lemma PutIsCanonical(file: Ini, section: string, lines: Ini)
    requires Canonical(file) && Canonical(lines)
    ensures Canonical(PutSection(file, section, lines))
  {
    WithoutIsCanonical(file, section);
  }

  lemma PutTitleIsCanonical(file: Ini, tid: u64, lines: Ini)
    requires forall i :: 0 <= i < |lines| ==> lines[i].section == SectionOf(tid)
    ensures Canonical(file) ==> Canonical(PutSection(file, SectionOf(tid), lines))
  {
    TitleOfSection(tid);
    if Canonical(file) {
      PutIsCanonical(file, SectionOf(tid), lines);
    }
  }

  // ---- What replacing a section changes ---------------------------------------------

  /** Replacing the section of a title touches no other title's clocks; for that title the
      new lines come after whatever other sections say about it. */
  lemma PutDecidesClocks(file: Ini, tid: u64, lines: Ini, other: u64, p: nat, m: nat)
    requires p < PROFILES && m < MODULES
    requires forall i :: 0 <= i < |lines| ==> lines[i].section == SectionOf(tid)
    ensures ClockOf(PutSection(file, SectionOf(tid), lines), other, p, m)
         == if other != tid then ClockOf(file, other, p, m)
            else if LastOf<u32>(ClockRule(tid, p, m), lines).Some? then ClockOf(lines, tid, p, m)
            else ClockOf(Without(file, SectionOf(tid)), tid, p, m)
  {
    var f := ClockRule(other, p, m);
    TitleOfSection(tid);
    LastOfAppend<u32>(f, Without(file, SectionOf(tid)), lines);
    if other != tid {
      LastOfWithout<u32>(f, file, SectionOf(tid));
      NothingSaid<u32>(f, lines);
    }
  }

  lemma PutDecidesCount(file: Ini, tid: u64, lines: Ini, other: u64)
    requires forall i :: 0 <= i < |lines| ==> lines[i].section == SectionOf(tid)
    ensures CountOf(CountRule(other), PutSection(file, SectionOf(tid), lines))
         == if other != tid then CountOf(CountRule(other), file)
            else CountOf(CountRule(tid), Without(file, SectionOf(tid))) + CountOf(CountRule(tid), lines)
  {
    var f := CountRule(other);
    TitleOfSection(tid);
    CountOfAppend(f, Without(file, SectionOf(tid)), lines);
    if other != tid {
      CountOfWithout(f, file, SectionOf(tid));
      NoneCounted(f, lines);
    }
  }

  /** In a canonical file nothing is said about a title outside its own section. */
  lemma CanonicalSaysNothingElse(file: Ini, tid: u64, p: nat, m: nat)
    requires Canonical(file) && p < PROFILES && m < MODULES
    ensures ClockOf(Without(file, SectionOf(tid)), tid, p, m) == 0
    ensures CountOf(CountRule(tid), Without(file, SectionOf(tid))) == 0
  {
    NothingWithout<u32>(ClockRule(tid, p, m), file, SectionOf(tid));
    NoneWithout(CountRule(tid), file, SectionOf(tid));
  }

  lemma {:induction false} NothingSaid<T>(f: Line -> Option<T>, lines: Ini)
    requires forall i :: 0 <= i < |lines| ==> f(lines[i]).None?
    ensures LastOf(f, lines) == None
  {
    if lines != [] {
      NothingSaid(f, lines[..|lines| - 1]);
    }
  }

  lemma {:induction false} NoneCounted(f: Line -> bool, lines: Ini)
    requires forall i :: 0 <= i < |lines| ==> !f(lines[i])
    ensures CountOf(f, lines) == 0
  {
    if lines != [] {
      NoneCounted(f, lines[..|lines| - 1]);
    }
  }

  /** A title's section has no influence on config values, nor the value section on titles. */
  lemma PutKeepsValues(c: Schema, file: Ini, tid: u64, lines: Ini, k: nat)
    requires k < |c.names|
    requires forall i :: 0 <= i < |lines| ==> lines[i].section == SectionOf(tid)
    ensures ValueOf(c, PutSection(file, SectionOf(tid), lines), k) == ValueOf(c, file, k)
  {
    var f := ValueRule(c, k);
    TitleOfSection(tid);
    LastOfAppend(f, Without(file, SectionOf(tid)), lines);
    LastOfWithout(f, file, SectionOf(tid));
    NothingSaid(f, lines);
  }

  lemma PutValuesKeepsClocks(file: Ini, lines: Ini, tid: u64, p: nat, m: nat)
    requires p < PROFILES && m < MODULES
    requires forall i :: 0 <= i < |lines| ==> lines[i].section == VALUES_SECTION
    ensures ClockOf(PutSection(file, VALUES_SECTION, lines), tid, p, m) == ClockOf(file, tid, p, m)
  {
    var f := ClockRule(tid, p, m);
    LastOfAppend<u32>(f, Without(file, VALUES_SECTION), lines);
    LastOfWithout<u32>(f, file, VALUES_SECTION);
    NothingSaid<u32>(f, lines);
  }

  lemma PutValuesKeepsCount(file: Ini, lines: Ini, tid: u64)
    requires forall i :: 0 <= i < |lines| ==> lines[i].section == VALUES_SECTION
    ensures CountOf(CountRule(tid), PutSection(file, VALUES_SECTION, lines)) == CountOf(CountRule(tid), file)
  {
    var g := CountRule(tid);
    CountOfAppend(g, Without(file, VALUES_SECTION), lines);
    CountOfWithout(g, file, VALUES_SECTION);
    NoneCounted(g, lines);
  }

  lemma PutDecidesValues(c: Schema, file: Ini, lines: Ini, k: nat)
    requires k < |c.names|
    ensures ValueOf(c, PutSection(file, VALUES_SECTION, lines), k) == ValueOf(c, lines, k)
  {
    var f := ValueRule(c, k);
    LastOfAppend(f, Without(file, VALUES_SECTION), lines);
    NothingWithout(f, file, VALUES_SECTION);
  }
}
