/** The in-memory copy of config.ini (config.cpp: Load, SetProfiles, SetConfigValues and the
    getters), which must always answer as a fresh Load of the file would. */
module ConfigStore {
  import opened MachineInts
  import opened ConfigText
  import opened ConfigFile

  datatype ProfileKey = ProfileKey(tid: u64, profile: nat, mod: nat)

  const CLOCKS := 25

  function Find(clocks: map<ProfileKey, u32>, key: ProfileKey): u32 {
    if key in clocks then clocks[key] else 0
  }

  function CountFor(counts: map<u64, u8>, tid: u64): u8 {
    if tid in counts then counts[tid] else 0
  }

  // ---- Lines written by SetProfiles -------------------------------------------------

  function ProfileLine(tid: u64, p: nat, m: nat, mhz: u32): Line
    requires p < PROFILES && m < MODULES
  {
    Line(SectionOf(tid), KeyName(p, m), Dec(mhz))
  }

  function LineAt(tid: u64, mhz: seq<u32>, i: nat): Line
    requires i < |mhz| == CLOCKS
  {
    ProfileLine(tid, i / 5, i % 5, mhz[i])
  }

  /** One line for every clock of a profile list, profile by profile. */
  function AllLines(tid: u64, mhz: seq<u32>): (lines: seq<Line>)
    requires |mhz| == CLOCKS
    ensures |lines| == CLOCKS && forall i :: 0 <= i < CLOCKS ==> lines[i] == LineAt(tid, mhz, i)
  {
    seq(CLOCKS, i requires 0 <= i < CLOCKS => LineAt(tid, mhz, i))
  }

  /** Those of the first n lines whose clock is not zero. */
  function Chosen(lines: seq<Line>, mhz: seq<u32>, n: nat): (r: Ini)
    requires n <= |lines| == |mhz|
    ensures forall i :: 0 <= i < |r| ==> r[i] in lines
  {
    if n == 0 then [] else Chosen(lines, mhz, n - 1) + if mhz[n - 1] == 0 then [] else [lines[n - 1]]
  }

  /** What SetProfiles writes for the first n clocks. */
  function ProfileLines(tid: u64, mhz: seq<u32>, n: nat): (lines: Ini)
    requires |mhz| == CLOCKS && n <= CLOCKS
    ensures forall i :: 0 <= i < |lines| ==> lines[i].section == SectionOf(tid)
  {
    Chosen(AllLines(tid, mhz), mhz, n)
  }

  function NonZero(mhz: seq<u32>, n: nat): (r: nat)
    requires n <= |mhz|
    ensures r <= n
  {
    if n == 0 then 0 else NonZero(mhz, n - 1) + if mhz[n - 1] != 0 then 1 else 0
  }

  lemma LineSaysClock(tid: u64, p: nat, m: nat, mhz: u32, q: nat, n: nat)
    requires p < PROFILES && m < MODULES && q < PROFILES && n < MODULES && tid != 0 && mhz != 0
    ensures ClockIn(ProfileLine(tid, p, m, mhz), tid, q, n) == if p == q && m == n then Some(mhz) else None
    ensures CountedIn(ProfileLine(tid, p, m, mhz), tid)
  {
    TitleOfSection(tid);
    PrintedMhz(mhz);
    KeysEqual(p, m, q, n);
    assert ClockIn(ProfileLine(tid, p, m, mhz), tid, p, m) == Some(mhz);
  }

  lemma PrintedMhz(mhz: u32)
    ensures Mhz(Dec(mhz)) == mhz
  {
    DecRoundTrip(mhz);
  }

  lemma KeysEqual(p: nat, m: nat, q: nat, n: nat)
    requires p < PROFILES && q < PROFILES && m < MODULES && n < MODULES
    ensures KeyName(p, m) == KeyName(q, n) <==> p == q && m == n
  {
    if KeyName(p, m) == KeyName(q, n) {
      KeysUnambiguous(p, m, q, n);
    }
  }

  /** What SetProfiles writes for a title is read back clock by clock. */
  lemma WrittenClock(tid: u64, mhz: seq<u32>, n: nat, p: nat, m: nat)
    requires |mhz| == CLOCKS && n <= CLOCKS && p < PROFILES && m < MODULES && tid != 0
    ensures LastOf<u32>(ClockRule(tid, p, m), ProfileLines(tid, mhz, n))
         == if 5 * p + m < n && mhz[5 * p + m] != 0 then Some(mhz[5 * p + m]) else None
  {
    var lines, i := AllLines(tid, mhz), 5 * p + m;
    forall k | 0 <= k < CLOCKS && mhz[k] != 0
      ensures ClockRule(tid, p, m)(lines[k]) == if k == i then Some(mhz[k]) else None
    {
      NextLineSays(tid, mhz, k, p, m);
    }
    LastOfChosen(ClockRule(tid, p, m), lines, mhz, n, i);
  }

  lemma {:induction false} LastOfChosen(f: Line -> Option<u32>, lines: seq<Line>, mhz: seq<u32>, n: nat, i: nat)
    requires n <= |lines| == |mhz|
    requires forall k :: 0 <= k < |lines| && mhz[k] != 0 ==> f(lines[k]) == if k == i then Some(mhz[k]) else None
    ensures LastOf<u32>(f, Chosen(lines, mhz, n)) == if i < n && mhz[i] != 0 then Some(mhz[i]) else None
  {
    if n > 0 {
      LastOfChosen(f, lines, mhz, n - 1, i);
      var before := Chosen(lines, mhz, n - 1);
      if mhz[n - 1] != 0 {
        LastOfOne<u32>(f, before, lines[n - 1]);
      } else {
        assert before + [] == before;
      }
    }
  }

  lemma {:induction false} CountOfChosen(f: Line -> bool, lines: seq<Line>, mhz: seq<u32>, n: nat)
    requires n <= |lines| == |mhz|
    requires forall k :: 0 <= k < |lines| && mhz[k] != 0 ==> f(lines[k])
    ensures CountOf(f, Chosen(lines, mhz, n)) == NonZero(mhz, n)
  {
    if n > 0 {
      CountOfChosen(f, lines, mhz, n - 1);
      var before := Chosen(lines, mhz, n - 1);
      if mhz[n - 1] != 0 {
        CountOfOne(f, before, lines[n - 1]);
      } else {
        assert before + [] == before;
      }
    }
  }

  lemma NextLineSays(tid: u64, mhz: seq<u32>, i: nat, p: nat, m: nat)
    requires i < |mhz| == CLOCKS && mhz[i] != 0 && p < PROFILES && m < MODULES && tid != 0
    ensures ClockIn(LineAt(tid, mhz, i), tid, p, m) == if 5 * p + m == i then Some(mhz[i]) else None
    ensures CountedIn(LineAt(tid, mhz, i), tid)
  {
    assert 5 * p + m == i <==> p == i / 5 && m == i % 5;
    LineSaysClock(tid, i / 5, i % 5, mhz[i], p, m);
  }

  lemma WrittenCount(tid: u64, mhz: seq<u32>, n: nat)
    requires |mhz| == CLOCKS && n <= CLOCKS && tid != 0
    ensures CountOf(CountRule(tid), ProfileLines(tid, mhz, n)) == NonZero(mhz, n)
  {
    var lines := AllLines(tid, mhz);
    forall k | 0 <= k < CLOCKS && mhz[k] != 0
      ensures CountRule(tid)(lines[k])
    {
      NextLineSays(tid, mhz, k, 0, 0);
    }
    CountOfChosen(CountRule(tid), lines, mhz, n);
  }

  lemma {:induction false} NothingForTitleZero(file: Ini, p: nat, m: nat)
    requires p < PROFILES && m < MODULES
    ensures ClockOf(file, 0, p, m) == 0 && ProfileCountOf(file, 0) == 0
  {
    NothingSaid(ClockRule(0, p, m), file);
    NoneCounted(CountRule(0), file);
  }

  // ---- Lines written by SetConfigValues ---------------------------------------------

  predicate WritesValue(c: Schema, values: seq<u64>, k: nat)
    requires k < |values|
  {
    c.valid(k, values[k]) && values[k] != c.default(k)
  }

  function ValueLines(c: Schema, values: seq<u64>, n: nat): (lines: Ini)
    requires |values| == |c.names| && n <= |values|
    ensures forall i :: 0 <= i < |lines| ==> lines[i].section == VALUES_SECTION
  {
    if n == 0 then []
    else if WritesValue(c, values, n - 1) then
      ValueLines(c, values, n - 1) + [Line(VALUES_SECTION, c.names[n - 1], Dec(values[n - 1]))]
    else ValueLines(c, values, n - 1)
  }

  lemma {:induction false} WrittenValue(c: Schema, values: seq<u64>, n: nat, k: nat)
    requires DistinctNames(c) && |values| == |c.names| && n <= |values| && k < |values|
    ensures LastOf<u64>(ValueRule(c, k), ValueLines(c, values, n))
         == if k < n && WritesValue(c, values, k) then Some(values[k]) else None
  {
    if n > 0 {
      WrittenValue(c, values, n - 1, k);
      if WritesValue(c, values, n - 1) {
        var l := Line(VALUES_SECTION, c.names[n - 1], Dec(values[n - 1]));
        WrittenLine(c, values[n - 1], n - 1, k);
        LastOfOne<u64>(ValueRule(c, k), ValueLines(c, values, n - 1), l);
      }
    }
  }

  lemma WrittenLine(c: Schema, value: u64, n: nat, k: nat)
    requires DistinctNames(c) && n < |c.names| && k < |c.names|
    ensures ValueIn(c, Line(VALUES_SECTION, c.names[n], Dec(value)), k) == if k == n then Some(Checked(c, k, value)) else None
  {
    DecRoundTrip(value);
  }

  /** Values that are not written are invalid or default, and load as the default. */
  lemma WrittenValueOf(c: Schema, values: seq<u64>, k: nat)
    requires DistinctNames(c) && |values| == |c.names| && k < |values|
    ensures ValueOf(c, ValueLines(c, values, |values|), k) == Checked(c, k, values[k])
  {
    WrittenValue(c, values, |values|, k);
  }

  // ---- The memory against the file --------------------------------------------------

  ghost predicate ClocksReflect(clocks: map<ProfileKey, u32>, file: Ini) {
    forall tid: u64, p, m :: 0 <= p < PROFILES && 0 <= m < MODULES ==>
                               Find(clocks, ProfileKey(tid, p, m)) == ClockOf(file, tid, p, m)
  }

  ghost predicate CountsReflect(counts: map<u64, u8>, file: Ini) {
    forall tid: u64 :: CountFor(counts, tid) == ProfileCountOf(file, tid)
  }

  ghost predicate ValuesReflect(c: Schema, values: seq<u64>, file: Ini) {
    |values| == |c.names| && forall k :: 0 <= k < |values| ==> values[k] == ValueOf(c, file, k)
  }

  function OrElse(o: Option<u32>, otherwise: u32): u32 { if o.Some? then o.value else otherwise }

  /** After one more line: what BrowseIniFunc does to the three stores. */
  ghost predicate ClocksTake(before: map<ProfileKey, u32>, l: Line, after: map<ProfileKey, u32>) {
    forall tid: u64, p, m :: 0 <= p < PROFILES && 0 <= m < MODULES ==>
                               Find(after, ProfileKey(tid, p, m)) == OrElse(ClockIn(l, tid, p, m), Find(before, ProfileKey(tid, p, m)))
  }

  ghost predicate CountsTake(before: map<u64, u8>, l: Line, after: map<u64, u8>) {
    forall tid: u64 :: CountFor(after, tid) == (CountFor(before, tid) + if CountedIn(l, tid) then 1 else 0) % 0x100
  }

  ghost predicate ValuesTake(c: Schema, before: seq<u64>, l: Line, after: seq<u64>) {
    && |after| == |before| == |c.names|
    && forall k :: 0 <= k < |after| ==>
                     after[k] == if ValueIn(c, l, k).Some? then ValueIn(c, l, k).value else before[k]
  }

  lemma TakeLine(c: Schema, file: Ini, i: nat, clocks: map<ProfileKey, u32>, counts: map<u64, u8>, values: seq<u64>,
                 clocks': map<ProfileKey, u32>, counts': map<u64, u8>, values': seq<u64>)
    requires i < |file|
    requires ClocksReflect(clocks, file[..i]) && ClocksTake(clocks, file[i], clocks')
    requires CountsReflect(counts, file[..i]) && CountsTake(counts, file[i], counts')
    requires ValuesReflect(c, values, file[..i]) && ValuesTake(c, values, file[i], values')
    ensures ClocksReflect(clocks', file[..i + 1])
    ensures CountsReflect(counts', file[..i + 1])
    ensures ValuesReflect(c, values', file[..i + 1])
  {
    assert file[..i + 1] == file[..i] + [file[i]];
    TakeClocks(file[..i], file[i], clocks, clocks');
    TakeCounts(file[..i], file[i], counts, counts');
    TakeValues(c, file[..i], file[i], values, values');
  }

  lemma TakeClocks(read: Ini, l: Line, clocks: map<ProfileKey, u32>, clocks': map<ProfileKey, u32>)
    requires ClocksReflect(clocks, read) && ClocksTake(clocks, l, clocks')
    ensures ClocksReflect(clocks', read + [l])
  {
    forall tid: u64, p, m | 0 <= p < PROFILES && 0 <= m < MODULES
      ensures Find(clocks', ProfileKey(tid, p, m)) == ClockOf(read + [l], tid, p, m)
    {
      LastOfOne<u32>(ClockRule(tid, p, m), read, l);
      assert Find(clocks, ProfileKey(tid, p, m)) == ClockOf(read, tid, p, m);
    }
  }

  lemma TakeCounts(read: Ini, l: Line, counts: map<u64, u8>, counts': map<u64, u8>)
    requires CountsReflect(counts, read) && CountsTake(counts, l, counts')
    ensures CountsReflect(counts', read + [l])
  {
    forall tid: u64
      ensures CountFor(counts', tid) == ProfileCountOf(read + [l], tid)
    {
      assert CountFor(counts, tid) == ProfileCountOf(read, tid);
      CountOfNext(read, l, tid);
    }
  }

  lemma CountOfNext(read: Ini, l: Line, tid: u64)
    ensures ProfileCountOf(read + [l], tid) == (ProfileCountOf(read, tid) + if CountedIn(l, tid) then 1 else 0) % 0x100
  {
    CountOfOne(CountRule(tid), read, l);
    CountWraps(CountOf(CountRule(tid), read), if CountedIn(l, tid) then 1 else 0);
  }

  lemma CountWraps(a: nat, d: nat)
    ensures (a % 0x100 + d) % 0x100 == (a + d) % 0x100
  {
  }

  lemma TakeValues(c: Schema, read: Ini, l: Line, values: seq<u64>, values': seq<u64>)
    requires ValuesReflect(c, values, read) && ValuesTake(c, values, l, values')
    ensures ValuesReflect(c, values', read + [l])
  {
    forall k | 0 <= k < |values'|
      ensures values'[k] == ValueOf(c, read + [l], k)
    {
      LastOfOne<u64>(ValueRule(c, k), read, l);
      assert values[k] == ValueOf(c, read, k);
    }
  }

  /** The keys and values that SetProfiles hands to the INI writer. */
  method CollectLines(tid: u64, mhz: seq<u32>) returns (lines: Ini, numProfiles: u8)
    requires |mhz| == CLOCKS
    ensures lines == ProfileLines(tid, mhz, |mhz|) && numProfiles == NonZero(mhz, |mhz|)
  {
    ghost var prefixes, counts := PairPrefixes(tid, mhz);
    lines, numProfiles := [], 0;
    var profile := 0;
    while profile < PROFILES
      invariant 0 <= profile <= PROFILES
      invariant lines == prefixes[5 * profile] && numProfiles == counts[5 * profile]
    {
      var mod := 0;
      while mod < MODULES
        invariant 0 <= mod <= MODULES
        invariant lines == prefixes[5 * profile + mod] && numProfiles == counts[5 * profile + mod]
      {
        var i := 5 * profile + mod;
        assert PairExtends(tid, mhz, prefixes, counts, profile, mod);
        if mhz[i] != 0 {
          numProfiles := (numProfiles + 1) % 0x100;
          lines := lines + [ProfileLine(tid, profile, mod, mhz[i])];
        }
        mod := mod + 1;
      }
      profile := profile + 1;
    }
  }

  /** The lines and the number of nonzero clocks before and after clock i. */
  ghost predicate Extends(lines: seq<Line>, mhz: seq<u32>, prefixes: seq<Ini>, counts: seq<nat>, i: nat)
    requires i < |mhz| == |lines| && |prefixes| == |counts| == |mhz| + 1
  {
    if mhz[i] == 0 then prefixes[i + 1] == prefixes[i] && counts[i + 1] == counts[i]
    else prefixes[i + 1] == prefixes[i] + [lines[i]] && counts[i + 1] == counts[i] + 1
  }

  ghost predicate Extending(lines: seq<Line>, mhz: seq<u32>, prefixes: seq<Ini>, counts: seq<nat>) {
    && |mhz| == |lines| && |prefixes| == |counts| == |mhz| + 1 && prefixes[0] == [] && counts[0] == 0
    && (forall i :: 0 <= i < |mhz| ==> Extends(lines, mhz, prefixes, counts, i))
    && (forall i :: 0 <= i <= |mhz| ==> counts[i] <= i)
  }

  lemma Prefixes(lines: seq<Line>, mhz: seq<u32>) returns (prefixes: seq<Ini>, counts: seq<nat>)
    requires |lines| == |mhz|
    ensures Extending(lines, mhz, prefixes, counts)
    ensures prefixes[|mhz|] == Chosen(lines, mhz, |mhz|) && counts[|mhz|] == NonZero(mhz, |mhz|)
  {
    prefixes := seq(|mhz| + 1, i requires 0 <= i <= |mhz| => Chosen(lines, mhz, i));
    counts := seq(|mhz| + 1, i requires 0 <= i <= |mhz| => NonZero(mhz, i));
    forall i | 0 <= i < |mhz|
      ensures Extends(lines, mhz, prefixes, counts, i)
    {
      assert prefixes[i + 1] == Chosen(lines, mhz, i + 1) && prefixes[i] == Chosen(lines, mhz, i);
      assert counts[i + 1] == NonZero(mhz, i + 1) && prefixes[i] + [] == prefixes[i];
    }
  }

  /** The same for the clock of profile p and module m, with its line written out. */
  ghost predicate PairExtends(tid: u64, mhz: seq<u32>, prefixes: seq<Ini>, counts: seq<nat>, p: nat, m: nat)
    requires |mhz| == CLOCKS && |prefixes| == |counts| == CLOCKS + 1 && p < PROFILES && m < MODULES
  {
    var i := 5 * p + m;
    && counts[i] < 0x80
    && (mhz[i] == 0 ==> prefixes[i + 1] == prefixes[i] && counts[i + 1] == counts[i])
    && (mhz[i] != 0 ==> prefixes[i + 1] == prefixes[i] + [ProfileLine(tid, p, m, mhz[i])] && counts[i + 1] == counts[i] + 1)
  }

  lemma PairPrefixes(tid: u64, mhz: seq<u32>) returns (prefixes: seq<Ini>, counts: seq<nat>)
    requires |mhz| == CLOCKS
    ensures |prefixes| == |counts| == CLOCKS + 1 && prefixes[0] == [] && counts[0] == 0
    ensures forall p, m :: 0 <= p < PROFILES && 0 <= m < MODULES ==> PairExtends(tid, mhz, prefixes, counts, p, m)
    ensures prefixes[CLOCKS] == ProfileLines(tid, mhz, |mhz|) && counts[CLOCKS] == NonZero(mhz, |mhz|)
  {
    var lines := AllLines(tid, mhz);
    prefixes, counts := Prefixes(lines, mhz);
    forall p, m | 0 <= p < PROFILES && 0 <= m < MODULES
      ensures PairExtends(tid, mhz, prefixes, counts, p, m)
    {
      var i := 5 * p + m;
      assert i / 5 == p && i % 5 == m;
      assert Extends(lines, mhz, prefixes, counts, i);
    }
  }

  // ---- The store --------------------------------------------------------------------

  class Store {
    var file: Ini
    var loaded: bool
    var profileMhz: map<ProfileKey, u32>
    var profileCount: map<u64, u8>
    var configValues: seq<u64>
    const schema: Schema

    constructor (schema: Schema, file: Ini)
      requires DistinctNames(schema)
      ensures this.schema == schema && this.file == file && !loaded
    {
      this.schema, this.file, loaded := schema, file, false;
      profileMhz, profileCount, configValues := map[], map[], [];
    }

    /** Memory answers every question as a fresh Load of the file would. */
    ghost predicate Coherent()
      reads this
    {
      Answers(file)
    }

    ghost predicate Answers(contents: Ini)
      reads this
    {
      && loaded && ClocksReflect(profileMhz, contents) && CountsReflect(profileCount, contents)
      && ValuesReflect(schema, configValues, contents)
    }

    method Close()
      modifies this
      ensures file == old(file) && !loaded && profileMhz == map[] && profileCount == map[]
      ensures |configValues| == |schema.names|
      ensures forall k :: 0 <= k < |configValues| ==> configValues[k] == schema.default(k)
    {
      loaded, profileMhz, profileCount, configValues := false, map[], map[], [];
      var i := 0;
      while i < |schema.names|
        invariant 0 <= i == |configValues| <= |schema.names|
        invariant forall k :: 0 <= k < i ==> configValues[k] == schema.default(k)
        invariant file == old(file) && !loaded && profileMhz == map[] && profileCount == map[]
      {
        configValues := configValues + [schema.default(i)];
        i := i + 1;
      }
    }

    /** Load, and with it Refresh of a changed file; a missing file counts as an empty one. */
    method Load()
      requires DistinctNames(schema)
      modifies this
      ensures file == old(file) && Coherent()
    {
      Close();
      assert file[..0] == [];
      var i := 0;
      while i < |file|
        invariant 0 <= i <= |file| && file == old(file)
        invariant ClocksReflect(profileMhz, file[..i]) && CountsReflect(profileCount, file[..i])
        invariant ValuesReflect(schema, configValues, file[..i])
      {
        ghost var clocks, counts, values := profileMhz, profileCount, configValues;
        BrowseLine(file[i]);
        TakeLine(schema, file, i, clocks, counts, values, profileMhz, profileCount, configValues);
        i := i + 1;
      }
      assert file[..i] == file;
      loaded := true;
    }

    /** BrowseIniFunc. */
    method BrowseLine(l: Line)
      requires |configValues| == |schema.names| && DistinctNames(schema)
      modifies this`profileMhz, this`profileCount, this`configValues
      ensures ClocksTake(old(profileMhz), l, profileMhz)
      ensures CountsTake(old(profileCount), l, profileCount)
      ensures ValuesTake(schema, old(configValues), l, configValues)
    {
      if l.section == VALUES_SECTION {
        var k := 0;
        while k < |schema.names|
          invariant 0 <= k <= |schema.names|
          invariant forall j :: 0 <= j < k ==> schema.names[j] != l.key
          invariant configValues == old(configValues)
        {
          if l.key == schema.names[k] {
            configValues := configValues[k := Checked(schema, k, Strtoul(l.value, 0))];
            return;
          }
          k := k + 1;
        }
        return;
      }
      var tid := Strtoul(l.section, 16);
      if tid == 0 || |l.section| != 16 {
        return;
      }
      var parsed := ParseKey(l.key);
      if parsed.None? {
        NoClock(l);
        return;
      }
      var (p, m) := parsed.value;
      var mhz: u32 := Strtoul(l.value, 10) % TWO_32;
      if mhz == 0 {
        return;
      }
      assert ClockIn(l, tid, p, m) == Some(mhz);
      OneClock(l, tid, p, m);
      profileMhz := profileMhz[ProfileKey(tid, p, m) := mhz];
      profileCount := profileCount[tid := (CountFor(profileCount, tid) + 1) % 0x100];
    }

    /** SetProfiles; written is the outcome of the INI writer. Memory that agreed with the
        file still does, exactly when the title is settable. */
    method SetProfiles(tid: u64, mhz: seq<u32>, immediate: bool, written: bool) returns (ok: bool)
      requires |mhz| == CLOCKS
      modifies this
      ensures ok == written && loaded == old(loaded) && configValues == old(configValues)
      ensures file == if written then PutSection(old(file), SectionOf(tid), ProfileLines(tid, mhz, |mhz|)) else old(file)
      ensures !(written && immediate) ==> profileMhz == old(profileMhz) && profileCount == old(profileCount)
      ensures written && immediate && old(Coherent()) ==> (Coherent() <==> Settable(old(file), tid, mhz))
      ensures Canonical(old(file)) ==> Canonical(file)
    {
      var lines, numProfiles := CollectLines(tid, mhz);
      if !written {
        return false;
      }
      PutTitleIsCanonical(file, tid, lines);
      file := PutSection(file, SectionOf(tid), lines);
      if immediate {
        StoreProfiles(tid, mhz, numProfiles, old(file), lines);
      }
      ok := true;
    }

    /** The immediate update of SetProfiles, after lines have replaced the title's section. */
    method StoreProfiles(tid: u64, mhz: seq<u32>, numProfiles: u8, ghost before: Ini, ghost lines: Ini)
      requires |mhz| == CLOCKS && numProfiles == NonZero(mhz, |mhz|) && lines == ProfileLines(tid, mhz, |mhz|)
      requires file == PutSection(before, SectionOf(tid), lines)
      modifies this`profileMhz, this`profileCount
      ensures old(Answers(before)) ==> (Coherent() <==> Settable(before, tid, mhz))
    {
      ghost var clocks, counts := profileMhz, profileCount;
      profileCount := profileCount[tid := numProfiles];
      StoreClocks(tid, mhz);
      if old(Answers(before)) {
        ProfileLinesSet(tid, mhz);
        SetReflects(schema, before, tid, mhz, lines, clocks, profileMhz, counts, profileCount, configValues);
      }
    }

    method StoreClocks(tid: u64, mhz: seq<u32>)
      requires |mhz| == CLOCKS
      modifies this`profileMhz
      ensures ClocksSet(old(profileMhz), tid, mhz, CLOCKS, profileMhz)
    {
      var profile := 0;
      while profile < PROFILES
        invariant 0 <= profile <= PROFILES && ClocksSet(old(profileMhz), tid, mhz, 5 * profile, profileMhz)
      {
        var mod := 0;
        while mod < MODULES
          invariant 0 <= mod <= MODULES && ClocksSet(old(profileMhz), tid, mhz, 5 * profile + mod, profileMhz)
        {
          var i := 5 * profile + mod;
          ghost var before := profileMhz;
          if mhz[i] != 0 {
            profileMhz := profileMhz[ProfileKey(tid, profile, mod) := mhz[i]];
          } else {
            profileMhz := profileMhz - {ProfileKey(tid, profile, mod)};
          }
          SetNextClock(old(profileMhz), tid, mhz, profile, mod, before, profileMhz);
          mod := mod + 1;
        }
        profile := profile + 1;
      }
    }

    /** SetConfigValues: invalid values are replaced by the default in both places. */
    method SetConfigValues(values: seq<u64>, immediate: bool, written: bool) returns (ok: bool)
      requires |values| == |schema.names| && DistinctNames(schema)
      modifies this
      ensures ok == written && loaded == old(loaded)
      ensures profileMhz == old(profileMhz) && profileCount == old(profileCount)
      ensures file == if written then PutSection(old(file), VALUES_SECTION, ValueLines(schema, values, |values|)) else old(file)
      ensures !(written && immediate) ==> configValues == old(configValues)
      ensures written && immediate && old(Coherent()) ==> Coherent()
      ensures Canonical(old(file)) ==> Canonical(file)
    {
      var lines: Ini := [];
      var k := 0;
      while k < |values|
        invariant 0 <= k <= |values| && lines == ValueLines(schema, values, k)
      {
        if schema.valid(k, values[k]) && values[k] != schema.default(k) {
          lines := lines + [Line(VALUES_SECTION, schema.names[k], Dec(values[k]))];
        }
        k := k + 1;
      }
      if Canonical(file) {
        PutIsCanonical(file, VALUES_SECTION, lines);
      }
      if !written {
        return false;
      }
      file := PutSection(file, VALUES_SECTION, lines);
      if immediate {
        var stored: seq<u64> := [];
        k := 0;
        while k < |values|
          invariant 0 <= k == |stored| <= |values|
          invariant forall j :: 0 <= j < k ==> stored[j] == Checked(schema, j, values[j])
        {
          stored := stored + [if schema.valid(k, values[k]) then values[k] else schema.default(k)];
          k := k + 1;
        }
        configValues := stored;
        if old(Coherent()) {
          ValuesSetReflects(schema, old(file), values, configValues, profileMhz, profileCount);
        }
      }
      ok := true;
    }

    // ---- Questions ------------------------------------------------------------------

    method FindClockMhz(tid: u64, m: nat, p: nat) returns (mhz: u32)
      requires p < PROFILES && m < MODULES
      ensures mhz == if loaded then Find(profileMhz, ProfileKey(tid, p, m)) else 0
      ensures Coherent() ==> mhz == ClockOf(file, tid, p, m)
    {
      mhz := if loaded then Find(profileMhz, ProfileKey(tid, p, m)) else 0;
    }

    method GetProfileCount(tid: u64) returns (count: u8)
      ensures Coherent() ==> count == ProfileCountOf(file, tid)
    {
      count := CountFor(profileCount, tid);
    }

    /** The first profile of the list that the file sets decides. */
    method FindClockHzFromProfiles(tid: u64, m: nat, profiles: seq<nat>, multiplier: u32) returns (hz: u32)
      requires m < MODULES && forall i :: 0 <= i < |profiles| ==> profiles[i] < PROFILES
      ensures Coherent() ==> hz == FirstSet(file, tid, m, profiles) * multiplier % TWO_32
    {
      var mhz: u32 := 0;
      var i := 0;
      while i < |profiles|
        invariant 0 <= i <= |profiles| && mhz == 0
        invariant Coherent() ==> FirstSet(file, tid, m, profiles) == FirstSet(file, tid, m, profiles[i..])
      {
        mhz := FindClockMhz(tid, m, profiles[i]);
        if mhz != 0 {
          break;
        }
        assert profiles[i..][1..] == profiles[i + 1..];
        i := i + 1;
      }
      hz := mhz * multiplier % TWO_32;
    }

    /** GetAutoClockHz, in Hz unless the raw value is wanted. */
    method GetAutoClockHz(tid: u64, m: nat, p: nat, raw: bool) returns (hz: u32)
      requires m < MODULES && p < PROFILES
      ensures Coherent() ==> hz == FirstSet(file, tid, m, Fallbacks(p)) * (if raw then 1 else 1_000_000) % TWO_32
    {
      var multiplier := if raw then 1 else 1_000_000;
      if p == 0 {
        hz := FindClockHzFromProfiles(tid, m, [0], multiplier);
      } else if p == 1 || p == 2 {
        hz := FindClockHzFromProfiles(tid, m, [2, 1, 0], multiplier);
      } else if p == 3 {
        hz := FindClockHzFromProfiles(tid, m, [3, 1, 0], multiplier);
      } else {
        hz := FindClockHzFromProfiles(tid, m, [4], multiplier);
      }
    }
  }

  datatype Op =
    | Reload
    | Profiles(tid: u64, mhz: seq<u32>)
    | Values(values: seq<u64>)

  /** Title zero can only be cleared: Load skips its section. */
  predicate OpOk(c: Schema, op: Op) {
    match op
    case Reload => true
    case Profiles(tid, mhz) => |mhz| == CLOCKS && (tid != 0 || NonZero(mhz, |mhz|) == 0)
    case Values(values) => |values| == |c.names|
  }

  /** What a written update makes the file say: exactly the clocks of the title, 0 included,
      their number, and nothing new about any other title. */
  lemma SetClocksReadBack(file: Ini, tid: u64, mhz: seq<u32>, other: u64, p: nat, m: nat)
    requires Canonical(file) && |mhz| == CLOCKS && p < PROFILES && m < MODULES && tid != 0
    ensures var after := PutSection(file, SectionOf(tid), ProfileLines(tid, mhz, |mhz|));
            && ClockOf(after, other, p, m) == (if other == tid then mhz[5 * p + m] else ClockOf(file, other, p, m))
            && CountOf(CountRule(other), after)
               == (if other == tid then |set i | 0 <= i < CLOCKS && mhz[i] != 0| else CountOf(CountRule(other), file))
  {
    var lines := ProfileLines(tid, mhz, |mhz|);
    PutDecidesClocks(file, tid, lines, other, p, m);
    PutDecidesCount(file, tid, lines, other);
    CanonicalSaysNothingElse(file, tid, p, m);
    WrittenClock(tid, mhz, |mhz|, p, m);
    WrittenCount(tid, mhz, |mhz|);
    NonZeroCounts(mhz, |mhz|);
  }

  lemma {:induction false} NonZeroCounts(mhz: seq<u32>, n: nat)
    requires n <= |mhz|
    ensures NonZero(mhz, n) == |set i | 0 <= i < n && mhz[i] != 0|
  {
    if n > 0 {
      NonZeroCounts(mhz, n - 1);
      var before := set i | 0 <= i < n - 1 && mhz[i] != 0;
      var now := set i | 0 <= i < n && mhz[i] != 0;
      assert now == if mhz[n - 1] != 0 then before + {n - 1} else before;
    }
  }

  /** What one operation leaves in the file. */
  ghost predicate OpEffect(c: Schema, before: Ini, op: Op, written: bool, after: Ini)
    requires OpOk(c, op)
  {
    if !written || op.Reload? then after == before
    else match op
         case Profiles(tid, mhz) => after == PutSection(before, SectionOf(tid), ProfileLines(tid, mhz, |mhz|))
         case Values(values) => after == PutSection(before, VALUES_SECTION, ValueLines(c, values, |values|))
  }

  ghost predicate Follows(c: Schema, files: seq<Ini>, ops: seq<Op>, written: nat -> bool) {
    |files| == |ops| + 1
    && forall i :: 0 <= i < |ops| ==> OpOk(c, ops[i]) && OpEffect(c, files[i], ops[i], written(i), files[i + 1])
  }

  /** Over any sequence of loads and immediate updates of titles and values, from a file
      whose title sections have their printed names, every operation has its effect on the
      file, and memory keeps answering as a fresh load would, whether or not the INI writer
      succeeds. */
  method Run(store: Store, ops: seq<Op>, written: nat -> bool) returns (ghost files: seq<Ini>)
    requires DistinctNames(store.schema) && store.Coherent() && Canonical(store.file)
    requires forall i :: 0 <= i < |ops| ==> OpOk(store.schema, ops[i])
    modifies store
    ensures store.Coherent() && Canonical(store.file)
    ensures Follows(store.schema, files, ops, written)
    ensures files[0] == old(store.file) && files[|ops|] == store.file
  {
    files := [store.file];
    for i := 0 to |ops|
      invariant store.Coherent() && Canonical(store.file)
      invariant Follows(store.schema, files, ops[..i], written)
      invariant files[0] == old(store.file) && files[i] == store.file
    {
      assert OpOk(store.schema, ops[i]) && ops[..i + 1] == ops[..i] + [ops[i]];
      RunOp(store, ops[i], written(i));
      files := files + [store.file];
    }
    assert ops[..|ops|] == ops;
  }

  method RunOp(store: Store, op: Op, written: bool)
    requires DistinctNames(store.schema) && store.Coherent() && Canonical(store.file) && OpOk(store.schema, op)
    modifies store
    ensures store.Coherent() && Canonical(store.file)
    ensures OpEffect(store.schema, old(store.file), op, written, store.file)
  {
    match op {
      case Reload =>
        store.Load();
      case Profiles(tid, mhz) =>
        CanonicalIsSettable(store.file, tid, mhz);
        var _ := store.SetProfiles(tid, mhz, true, written);
      case Values(values) =>
        var _ := store.SetConfigValues(values, true, written);
    }
  }

  function FirstSet(file: Ini, tid: u64, m: nat, profiles: seq<nat>): u32
    requires m < MODULES && forall i :: 0 <= i < |profiles| ==> profiles[i] < PROFILES
  {
    if profiles == [] then 0
    else if ClockOf(file, tid, profiles[0], m) != 0 then ClockOf(file, tid, profiles[0], m)
    else FirstSet(file, tid, m, profiles[1..])
  }

  /** The profiles consulted for a profile, most specific first. */
  function Fallbacks(p: nat): seq<nat> {
    match p
    case 0 => [0]
    case 1 => [2, 1, 0]
    case 2 => [2, 1, 0]
    case 3 => [3, 1, 0]
    case _ => [4]
  }

  /** The fallback order written out: USB and charging both try USB, charging, handheld;
      official charging tries itself, charging, handheld; the others only themselves. */
  lemma FallbackOrder(file: Ini, tid: u64, m: nat, p: nat)
    requires m < MODULES && p < PROFILES
    ensures var handheld, charging, usb, official, docked := ClockOf(file, tid, 0, m), ClockOf(file, tid, 1, m),
              ClockOf(file, tid, 2, m), ClockOf(file, tid, 3, m), ClockOf(file, tid, 4, m);
            FirstSet(file, tid, m, Fallbacks(p)) ==
              if p == 0 then handheld
              else if p == 4 then docked
              else if p == 3 && official != 0 then official
              else if p != 3 && usb != 0 then usb
              else if charging != 0 then charging else handheld
  {
    var last: seq<nat> := [0];
    assert FirstSet(file, tid, m, last) == ClockOf(file, tid, 0, m);
    var two: seq<nat> := [1, 0];
    assert two[1..] == last;
    var usbFirst: seq<nat> := [2, 1, 0];
    assert usbFirst[1..] == two;
    var officialFirst: seq<nat> := [3, 1, 0];
    assert officialFirst[1..] == two;
    var docked: seq<nat> := [4];
    assert FirstSet(file, tid, m, docked) == ClockOf(file, tid, 4, m);
  }

  /** The two nested loops over profile and module codes. */
  method ParseKey(key: string) returns (parsed: Option<(nat, nat)>)
    ensures parsed.Some? ==> Parses(key, parsed.value.0, parsed.value.1)
    ensures parsed.None? ==> forall p, m :: 0 <= p < PROFILES && 0 <= m < MODULES ==> !Parses(key, p, m)
  {
    parsed := None;
    var profile := 0;
    while profile < PROFILES
      invariant 0 <= profile <= PROFILES
      invariant parsed.Some? ==> Parses(key, parsed.value.0, parsed.value.1)
      invariant parsed.None? ==> forall p, m :: 0 <= p < profile && 0 <= m < MODULES ==> !Parses(key, p, m)
    {
      var found := ParseProfile(key, profile);
      if found.Some? {
        parsed := Some((profile, found.value));
      }
      profile := profile + 1;
    }
  }

  predicate Parses(key: string, p: nat, m: nat) {
    p < PROFILES && m < MODULES && key == KeyName(p, m)
  }

  method ParseProfile(key: string, profile: nat) returns (parsed: Option<nat>)
    requires profile < PROFILES
    ensures parsed.Some? ==> Parses(key, profile, parsed.value)
    ensures parsed.None? ==> forall m :: 0 <= m < MODULES ==> !Parses(key, profile, m)
  {
    var code := ProfileName(profile);
    forall m | 0 <= m < MODULES
      ensures key == KeyName(profile, m) <==> StartsWith(key, code) && key[|code| + 1..] == ModuleName(m)
    {
      WholeKey(key, profile, m);
    }
    parsed := None;
    if StartsWith(key, code) {
      parsed := ParseModule(key[|code| + 1..]);
    }
  }

  method ParseModule(subkey: string) returns (parsed: Option<nat>)
    ensures parsed.Some? ==> parsed.value < MODULES && subkey == ModuleName(parsed.value)
    ensures parsed.None? ==> forall m :: 0 <= m < MODULES ==> subkey != ModuleName(m)
  {
    parsed := None;
    var mod := 0;
    while mod < MODULES
      invariant 0 <= mod <= MODULES
      invariant parsed.Some? ==> parsed.value < MODULES && subkey == ModuleName(parsed.value)
      invariant parsed.None? ==> forall m :: 0 <= m < mod ==> subkey != ModuleName(m)
    {
      if subkey == ModuleName(mod) {
        parsed := Some(mod);
      }
      mod := mod + 1;
    }
  }

  predicate StartsWith(key: string, code: string) {
    |key| > |code| && key[..|code|] == code && key[|code|] == '_'
  }

  lemma WholeKey(key: string, p: nat, m: nat)
    requires p < PROFILES && m < MODULES
    ensures var code := ProfileName(p);
            key == KeyName(p, m) <==> StartsWith(key, code) && key[|code| + 1..] == ModuleName(m)
  {
  }

  lemma NoClock(l: Line)
    requires forall p, m :: 0 <= p < PROFILES && 0 <= m < MODULES ==> !Parses(l.key, p, m)
    ensures forall tid: u64, p, m :: 0 <= p < PROFILES && 0 <= m < MODULES ==> ClockIn(l, tid, p, m).None?
    ensures forall tid: u64 :: !CountedIn(l, tid)
  {
    forall p, m | 0 <= p < PROFILES && 0 <= m < MODULES
      ensures l.key != KeyName(p, m)
    {
      assert !Parses(l.key, p, m);
    }
  }

  /** A line says something about one clock at most. */
  lemma OneClock(l: Line, tid: u64, p: nat, m: nat)
    requires p < PROFILES && m < MODULES && ClockIn(l, tid, p, m).Some?
    ensures forall t: u64, q, n :: 0 <= q < PROFILES && 0 <= n < MODULES && ClockIn(l, t, q, n).Some? ==>
                                     t == tid && q == p && n == m
    ensures forall t: u64 :: CountedIn(l, t) <==> t == tid
  {
    forall t: u64, q, n | 0 <= q < PROFILES && 0 <= n < MODULES && ClockIn(l, t, q, n).Some?
      ensures t == tid && q == p && n == m
    {
      KeysUnambiguous(p, m, q, n);
    }
  }

  // ---- SetProfiles keeps the memory coherent ----------------------------------------

  function SetClock(before: map<ProfileKey, u32>, tid: u64, mhz: seq<u32>, n: nat, t: u64, p: nat, m: nat): u32
    requires |mhz| == CLOCKS && p < PROFILES && m < MODULES
  {
    if t == tid && 5 * p + m < n then mhz[5 * p + m] else Find(before, ProfileKey(t, p, m))
  }

  /** The first n clocks of a title are set, everything else is kept. */
  ghost predicate ClocksSet(before: map<ProfileKey, u32>, tid: u64, mhz: seq<u32>, n: nat, after: map<ProfileKey, u32>)
    requires |mhz| == CLOCKS
  {
    forall t: u64, p, m :: 0 <= p < PROFILES && 0 <= m < MODULES ==>
                             Find(after, ProfileKey(t, p, m)) == SetClock(before, tid, mhz, n, t, p, m)
  }

  lemma SetNextClock(old_: map<ProfileKey, u32>, tid: u64, mhz: seq<u32>, profile: nat, mod: nat,
                     before: map<ProfileKey, u32>, after: map<ProfileKey, u32>)
    requires |mhz| == CLOCKS && profile < PROFILES && mod < MODULES
    requires ClocksSet(old_, tid, mhz, 5 * profile + mod, before)
    requires Find(after, ProfileKey(tid, profile, mod)) == mhz[5 * profile + mod]
    requires forall key :: key != ProfileKey(tid, profile, mod) ==> Find(after, key) == Find(before, key)
    ensures ClocksSet(old_, tid, mhz, 5 * profile + mod + 1, after)
  {
  }

  /** Setting the clocks of a title keeps memory and file in agreement: the file must not
      say anything about the title under another section name, such as the same number in
      lower case; and title zero, which Load skips, can only be cleared. */
  ghost predicate Settable(file: Ini, tid: u64, mhz: seq<u32>)
    requires |mhz| == CLOCKS
  {
    CountSettable(file, tid, mhz) && ClocksSettable(file, tid, mhz)
  }

  predicate ClockSettable(file: Ini, tid: u64, mhz: seq<u32>, p: nat, m: nat)
    requires |mhz| == CLOCKS && p < PROFILES && m < MODULES
  {
    if tid == 0 then mhz[5 * p + m] == 0
    else mhz[5 * p + m] == 0 ==> ClockOf(Without(file, SectionOf(tid)), tid, p, m) == 0
  }

  ghost predicate CountSettable(file: Ini, tid: u64, mhz: seq<u32>)
    requires |mhz| == CLOCKS
  {
    if tid == 0 then NonZero(mhz, |mhz|) == 0 else ProfileCountOf(Without(file, SectionOf(tid)), tid) == 0
  }

  /** In a file that only this program wrote, every title but zero is settable. */
  lemma CanonicalIsSettable(file: Ini, tid: u64, mhz: seq<u32>)
    requires Canonical(file) && |mhz| == CLOCKS
    ensures Settable(file, tid, mhz) <==> tid != 0 || NonZero(mhz, |mhz|) == 0
  {
    CanonicalSaysNothingElse(file, tid, 0, 0);
    forall p, m | 0 <= p < PROFILES && 0 <= m < MODULES
      ensures tid != 0 || NonZero(mhz, |mhz|) == 0 ==> ClockSettable(file, tid, mhz, p, m)
    {
      CanonicalSaysNothingElse(file, tid, p, m);
      if NonZero(mhz, |mhz|) == 0 {
        AllZero(mhz, |mhz|, 5 * p + m);
      }
    }
  }

  /** What lines written for a title say about it, clock by clock and in number. */
  ghost predicate Sets(lines: Ini, tid: u64, mhz: seq<u32>)
    requires |mhz| == CLOCKS
  {
    && (forall i :: 0 <= i < |lines| ==> lines[i].section == SectionOf(tid))
    && (tid != 0 ==> CountOf(CountRule(tid), lines) == NonZero(mhz, |mhz|))
    && (tid != 0 ==> forall p, m :: 0 <= p < PROFILES && 0 <= m < MODULES ==> SetsClock(lines, tid, mhz, p, m))
  }

  predicate SetsClock(lines: Ini, tid: u64, mhz: seq<u32>, p: nat, m: nat)
    requires |mhz| == CLOCKS && p < PROFILES && m < MODULES
  {
    LastOf<u32>(ClockRule(tid, p, m), lines) == if mhz[5 * p + m] != 0 then Some(mhz[5 * p + m]) else None
  }

  lemma ProfileLinesSet(tid: u64, mhz: seq<u32>)
    requires |mhz| == CLOCKS
    ensures Sets(ProfileLines(tid, mhz, |mhz|), tid, mhz)
  {
    var lines := ProfileLines(tid, mhz, |mhz|);
    if tid != 0 {
      WrittenCount(tid, mhz, |mhz|);
      forall p, m | 0 <= p < PROFILES && 0 <= m < MODULES
        ensures SetsClock(lines, tid, mhz, p, m)
      {
        WrittenClock(tid, mhz, |mhz|, p, m);
      }
    }
  }

  lemma SetReflects(c: Schema, file: Ini, tid: u64, mhz: seq<u32>, lines: Ini,
                    clocks: map<ProfileKey, u32>, clocks': map<ProfileKey, u32>,
                    counts: map<u64, u8>, counts': map<u64, u8>, values: seq<u64>)
    requires |mhz| == CLOCKS && Sets(lines, tid, mhz)
    requires ClocksReflect(clocks, file) && ClocksSet(clocks, tid, mhz, CLOCKS, clocks')
    requires CountsReflect(counts, file) && counts' == counts[tid := NonZero(mhz, |mhz|)]
    requires ValuesReflect(c, values, file)
    ensures var after := PutSection(file, SectionOf(tid), lines);
            && ValuesReflect(c, values, after)
            && (ClocksReflect(clocks', after) && CountsReflect(counts', after) <==> Settable(file, tid, mhz))
  {
    var after := PutSection(file, SectionOf(tid), lines);
    forall k | 0 <= k < |values|
      ensures values[k] == ValueOf(c, after, k)
    {
      PutKeepsValues(c, file, tid, lines, k);
    }
    ClocksSettle(file, tid, mhz, lines, clocks, clocks');
    CountsSettle(file, tid, mhz, lines, counts, counts');
  }

  ghost predicate ClocksSettable(file: Ini, tid: u64, mhz: seq<u32>)
    requires |mhz| == CLOCKS
  {
    forall p, m :: 0 <= p < PROFILES && 0 <= m < MODULES ==> ClockSettable(file, tid, mhz, p, m)
  }

  lemma ClocksSettle(file: Ini, tid: u64, mhz: seq<u32>, lines: Ini, clocks: map<ProfileKey, u32>, clocks': map<ProfileKey, u32>)
    requires |mhz| == CLOCKS && Sets(lines, tid, mhz)
    requires ClocksReflect(clocks, file) && ClocksSet(clocks, tid, mhz, CLOCKS, clocks')
    ensures ClocksReflect(clocks', PutSection(file, SectionOf(tid), lines)) <==> ClocksSettable(file, tid, mhz)
  {
    var after := PutSection(file, SectionOf(tid), lines);
    forall t: u64, p, m | 0 <= p < PROFILES && 0 <= m < MODULES
      ensures Find(clocks', ProfileKey(t, p, m)) == ClockOf(after, t, p, m) <==> t != tid || ClockSettable(file, tid, mhz, p, m)
    {
      ClockReflects(file, tid, mhz, lines, clocks, clocks', t, p, m);
    }
    if ClocksReflect(clocks', after) {
      forall p, m | 0 <= p < PROFILES && 0 <= m < MODULES
        ensures ClockSettable(file, tid, mhz, p, m)
      {
        assert Find(clocks', ProfileKey(tid, p, m)) == ClockOf(after, tid, p, m);
      }
    }
  }

  lemma ClockReflects(file: Ini, tid: u64, mhz: seq<u32>, lines: Ini, clocks: map<ProfileKey, u32>, clocks': map<ProfileKey, u32>,
                      t: u64, p: nat, m: nat)
    requires |mhz| == CLOCKS && p < PROFILES && m < MODULES && Sets(lines, tid, mhz)
    requires ClocksReflect(clocks, file) && ClocksSet(clocks, tid, mhz, CLOCKS, clocks')
    ensures Find(clocks', ProfileKey(t, p, m)) == ClockOf(PutSection(file, SectionOf(tid), lines), t, p, m)
            <==> t != tid || ClockSettable(file, tid, mhz, p, m)
  {
    assert Find(clocks', ProfileKey(t, p, m)) == SetClock(clocks, tid, mhz, CLOCKS, t, p, m);
    if t == tid {
      ClockAfter(file, tid, mhz, lines, p, m);
    } else {
      PutDecidesClocks(file, tid, lines, t, p, m);
      assert Find(clocks, ProfileKey(t, p, m)) == ClockOf(file, t, p, m);
    }
  }

  lemma ClockAfter(file: Ini, tid: u64, mhz: seq<u32>, lines: Ini, p: nat, m: nat)
    requires |mhz| == CLOCKS && p < PROFILES && m < MODULES && Sets(lines, tid, mhz)
    ensures mhz[5 * p + m] == ClockOf(PutSection(file, SectionOf(tid), lines), tid, p, m) <==> ClockSettable(file, tid, mhz, p, m)
  {
    if tid == 0 {
      NothingForTitleZero(PutSection(file, SectionOf(tid), lines), p, m);
    } else {
      assert SetsClock(lines, tid, mhz, p, m);
      PutDecidesClocks(file, tid, lines, tid, p, m);
    }
  }

  lemma CountsSettle(file: Ini, tid: u64, mhz: seq<u32>, lines: Ini, counts: map<u64, u8>, counts': map<u64, u8>)
    requires |mhz| == CLOCKS && Sets(lines, tid, mhz)
    requires CountsReflect(counts, file) && counts' == counts[tid := NonZero(mhz, |mhz|)]
    ensures CountsReflect(counts', PutSection(file, SectionOf(tid), lines)) <==> CountSettable(file, tid, mhz)
  {
    var after := PutSection(file, SectionOf(tid), lines);
    CountAfter(file, tid, mhz, lines);
    forall t: u64
      ensures CountFor(counts', t) == ProfileCountOf(after, t) <==> t != tid || CountSettable(file, tid, mhz)
    {
      PutDecidesCount(file, tid, lines, t);
      assert CountFor(counts, t) == ProfileCountOf(file, t);
    }
    assert CountSettable(file, tid, mhz) <==> CountFor(counts', tid) == ProfileCountOf(after, tid);
  }

  lemma CountAfter(file: Ini, tid: u64, mhz: seq<u32>, lines: Ini)
    requires |mhz| == CLOCKS && Sets(lines, tid, mhz)
    ensures NonZero(mhz, |mhz|) == ProfileCountOf(PutSection(file, SectionOf(tid), lines), tid) <==> CountSettable(file, tid, mhz)
  {
    if tid == 0 {
      NothingForTitleZero(PutSection(file, SectionOf(tid), lines), 0, 0);
    } else {
      CountAdds(file, tid, lines);
    }
  }

  lemma CountAdds(file: Ini, tid: u64, lines: Ini)
    requires forall i :: 0 <= i < |lines| ==> lines[i].section == SectionOf(tid)
    requires CountOf(CountRule(tid), lines) < 0x100
    ensures ProfileCountOf(PutSection(file, SectionOf(tid), lines), tid) == CountOf(CountRule(tid), lines)
            <==> ProfileCountOf(Without(file, SectionOf(tid)), tid) == 0
  {
    var f, section := CountRule(tid), SectionOf(tid);
    PutDecidesCount(file, tid, lines, tid);
    CountTotal(CountOf(f, PutSection(file, section, lines)), CountOf(f, Without(file, section)), CountOf(f, lines));
  }

  lemma CountTotal(total: nat, a: nat, n: nat)
    requires total == a + n && n < 0x100
    ensures total % 0x100 == n <==> a % 0x100 == 0
  {
    CountModulo(a, n);
  }

  lemma CountModulo(a: nat, n: nat)
    requires n < 0x100
    ensures (a + n) % 0x100 == n <==> a % 0x100 == 0
  {
  }

  lemma {:induction false} AllZero(mhz: seq<u32>, n: nat, i: nat)
    requires i < n <= |mhz| && NonZero(mhz, n) == 0
    ensures mhz[i] == 0
  {
    if i < n - 1 {
      AllZero(mhz, n - 1, i);
    }
  }

  lemma ValuesSetReflects(c: Schema, file: Ini, values: seq<u64>, stored: seq<u64>,
                          clocks: map<ProfileKey, u32>, counts: map<u64, u8>)
    requires DistinctNames(c) && |values| == |stored| == |c.names|
    requires forall k :: 0 <= k < |values| ==> stored[k] == Checked(c, k, values[k])
    requires ClocksReflect(clocks, file) && CountsReflect(counts, file)
    ensures var after := PutSection(file, VALUES_SECTION, ValueLines(c, values, |values|));
            ClocksReflect(clocks, after) && CountsReflect(counts, after) && ValuesReflect(c, stored, after)
  {
    var lines := ValueLines(c, values, |values|);
    var after := PutSection(file, VALUES_SECTION, lines);
    forall tid: u64, p, m | 0 <= p < PROFILES && 0 <= m < MODULES
      ensures Find(clocks, ProfileKey(tid, p, m)) == ClockOf(after, tid, p, m)
    {
      PutValuesKeepsClocks(file, lines, tid, p, m);
    }
    forall tid: u64
      ensures CountFor(counts, tid) == ProfileCountOf(after, tid)
    {
      PutValuesKeepsCount(file, lines, tid);
    }
    forall k | 0 <= k < |stored|
      ensures stored[k] == ValueOf(c, after, k)
    {
      PutDecidesValues(c, file, lines, k);
      WrittenValueOf(c, values, k);
    }
  }
}
