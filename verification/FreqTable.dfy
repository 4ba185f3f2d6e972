/** The frequency tables of the clock manager: clock_manager.cpp, IsAssignableHz,
    GetNearestHz and RefreshFreqTableRow. */
module FreqTable {
  import opened MachineInts

  datatype Soc = Erista | Mariko
  datatype ClockModule = CPU | GPU | MEM | Governor | Display

  /** 32-bit in the source; sums are formed in 64 bits or stay below 2^32 (InRange). */
  type Hz = nat

  const LIST_MAX: nat := 48
  const STEP: nat := 38_400_000
  const PCV_STEP: nat := 76_800_000

  ghost predicate Ascending(s: seq<Hz>) {
    forall i, j :: 0 <= i < j < |s| ==> s[i] < s[j]
  }

  predicate IsAssignableHz(clock: ClockModule, hz: Hz) {
    match clock
    case CPU => hz >= 500_000_000
    case MEM => hz >= 665_600_000
    case _ => true
  }

  function Distance(a: int, b: int): nat { if a < b then b - a else a - b }

  /** Entries below index n are below the cap (0 means no cap). */
  ghost predicate Uncapped(table: seq<Hz>, maxHz: Hz, n: nat)
    requires n <= |table|
  {
    maxHz > 0 ==> forall k :: 0 <= k < n ==> table[k] < maxHz
  }

  /** Index reach is the last one the search may return: the first entry at or above the
      cap, or the last entry of the table. */
  ghost predicate Reach(table: seq<Hz>, maxHz: Hz, reach: nat) {
    && reach < |table|
    && Uncapped(table, maxHz, reach)
    && (reach == |table| - 1 || (maxHz > 0 && table[reach] >= maxHz))
  }

  /** Entry r is the nearest to hz among entries 0..reach, the lower one on a tie. */
  ghost predicate NearestUpTo(table: seq<Hz>, hz: int, reach: nat, r: nat)
    requires reach < |table|
  {
    && r <= reach
    && (forall k :: 0 <= k <= reach ==> Distance(table[r], hz) <= Distance(table[k], hz))
    && (forall k :: 0 <= k < r ==> Distance(table[r], hz) < Distance(table[k], hz))
  }

  ghost predicate IsNearest(table: seq<Hz>, hz: int, maxHz: Hz, nearest: Hz) {
    exists r: nat, reach: nat ::
      Reach(table, maxHz, reach) && NearestUpTo(table, hz, reach, r) && nearest == table[r]
  }

  method GetNearestHz(table: seq<Hz>, hz: Hz, maxHz: Hz) returns (nearest: Hz)
    requires |table| > 0 && Ascending(table)
    ensures IsNearest(table, hz, maxHz, nearest)
  {
    var count := |table| - 1;
    var i := 0;
    while i < count
      invariant 0 <= i <= count
      invariant Uncapped(table, maxHz, i)
      invariant i > 0 ==> 2 * hz > table[i - 1] + table[i]
    {
      if maxHz > 0 && table[i] >= maxHz {
        break;
      }
      if hz <= (table[i] + table[i + 1]) / 2 {
        break;
      }
      i := i + 1;
    }
    ghost var reach := FirstReach(table, maxHz, i);
    nearest := table[i];
    NearestIsLocal(table, hz, reach, i);
  }

  lemma {:induction false} FirstReach(table: seq<Hz>, maxHz: Hz, from: nat) returns (reach: nat)
    requires from < |table| && Uncapped(table, maxHz, from)
    ensures from <= reach && Reach(table, maxHz, reach)
    ensures maxHz > 0 && table[from] >= maxHz ==> reach == from
    decreases |table| - from
  {
    if from == |table| - 1 || (maxHz > 0 && table[from] >= maxHz) {
      reach := from;
    } else {
      reach := FirstReach(table, maxHz, from + 1);
    }
  }

  /** The nearest entry is determined, and it is its own nearest entry. */
  lemma NearestIsUnique(table: seq<Hz>, hz: int, maxHz: Hz, x: Hz, y: Hz)
    requires IsNearest(table, hz, maxHz, x)
    ensures IsNearest(table, hz, maxHz, y) ==> x == y
    ensures IsNearest(table, x, maxHz, y) ==> x == y
  {
    var r: nat, reach: nat :| Reach(table, maxHz, reach) && NearestUpTo(table, hz, reach, r) && x == table[r];
    if IsNearest(table, hz, maxHz, y) {
      var r': nat, reach': nat :| Reach(table, maxHz, reach') && NearestUpTo(table, hz, reach', r') && y == table[r'];
      assert reach == reach' && r == r';
    }
    if IsNearest(table, x, maxHz, y) {
      var r': nat, reach': nat :| Reach(table, maxHz, reach') && NearestUpTo(table, x, reach', r') && y == table[r'];
      assert reach == reach';
      assert Distance(table[r'], x) <= Distance(table[r], x);
    }
  }

  /** In an ascending table it is enough to look at the two neighbours. */
  lemma NearestIsLocal(table: seq<Hz>, hz: int, reach: nat, i: nat)
    requires Ascending(table) && i <= reach < |table|
    requires i > 0 ==> 2 * hz > table[i - 1] + table[i]
    requires i < reach ==> 2 * hz <= table[i] + table[i + 1]
    ensures NearestUpTo(table, hz, reach, i)
  {
    forall k | 0 <= k < i
      ensures Distance(table[i], hz) < Distance(table[k], hz)
    {
      assert table[k] <= table[i - 1];
    }
    forall k | i < k <= reach
      ensures Distance(table[i], hz) <= Distance(table[k], hz)
    {
      assert table[i + 1] <= table[k];
    }
  }

  /** A cap that is itself an entry is never exceeded. */
  lemma NeverAboveListedCap(table: seq<Hz>, hz: Hz, maxHz: Hz, reach: nat, r: nat)
    requires Ascending(table) && maxHz in table && maxHz > 0
    requires Reach(table, maxHz, reach) && NearestUpTo(table, hz, reach, r)
    ensures table[r] <= maxHz
  {
    var c :| 0 <= c < |table| && table[c] == maxHz;
    assert reach <= c;
  }

  /** Any cap is exceeded exactly when it is no entry, the last candidate lies above it, and
      the request is nearer to that one than to the candidate below. */
  lemma CapExceededExactly(table: seq<Hz>, hz: Hz, maxHz: Hz, reach: nat, r: nat)
    requires Ascending(table) && maxHz > 0
    requires Reach(table, maxHz, reach) && NearestUpTo(table, hz, reach, r)
    ensures table[r] > maxHz <==>
              table[reach] > maxHz && (reach == 0 || 2 * hz > table[reach - 1] + table[reach])
    ensures table[r] > maxHz ==> maxHz !in table
  {
    if maxHz in table {
      NeverAboveListedCap(table, hz, maxHz, reach, r);
    }
    if r < reach {
      assert Distance(table[r], hz) <= Distance(table[reach], hz);
      assert table[r] <= table[reach - 1];
    } else if reach > 0 {
      assert Distance(table[reach], hz) < Distance(table[reach - 1], hz);
    }
  }

  ghost predicate Exceedable(table: seq<Hz>, maxHz: Hz) {
    exists hz: Hz, nearest: Hz :: IsNearest(table, hz, maxHz, nearest) && nearest > maxHz
  }

  /** So some request exceeds a cap exactly when the cap is no entry and some entry is above. */
  lemma ExceedableExactly(table: seq<Hz>, maxHz: Hz)
    requires Ascending(table) && |table| > 0 && maxHz > 0
    ensures Exceedable(table, maxHz) <==> maxHz !in table && table[|table| - 1] > maxHz
  {
    if Exceedable(table, maxHz) {
      var hz: Hz, nearest: Hz :| IsNearest(table, hz, maxHz, nearest) && nearest > maxHz;
      ExceedingRequest(table, hz, maxHz, nearest);
    }
    if maxHz !in table && table[|table| - 1] > maxHz {
      LastCandidateExceeds(table, maxHz);
    }
  }

  lemma ExceedingRequest(table: seq<Hz>, hz: Hz, maxHz: Hz, nearest: Hz)
    requires Ascending(table) && maxHz > 0 && IsNearest(table, hz, maxHz, nearest) && nearest > maxHz
    ensures |table| > 0 && maxHz !in table && table[|table| - 1] > maxHz
  {
    var r: nat, reach: nat :| Reach(table, maxHz, reach) && NearestUpTo(table, hz, reach, r) && nearest == table[r];
    CapExceededExactly(table, hz, maxHz, reach, r);
    assert table[reach] <= table[|table| - 1];
  }

  lemma LastCandidateExceeds(table: seq<Hz>, maxHz: Hz)
    requires Ascending(table) && |table| > 0 && maxHz > 0 && maxHz !in table && table[|table| - 1] > maxHz
    ensures Exceedable(table, maxHz)
  {
    var reach := FirstReach(table, maxHz, 0);
    assert table[reach] > maxHz;
    assert NearestUpTo(table, table[reach], reach, reach);
    assert IsNearest(table, table[reach], maxHz, table[reach]);
  }

  // ---- Building a row ---------------------------------------------------------------

  /** The 27 Erista GPU frequencies with a configured voltage; 2000 disables one. */
  predicate EristaMapped(hz: Hz) {
    76_800_000 <= hz <= 1_075_200_000 && hz % STEP == 0
  }

  predicate Kept(clock: ClockModule, soc: Soc, hz: Hz, eristaVolt: Hz -> nat) {
    && IsAssignableHz(clock, hz)
    && !(clock == GPU && soc == Erista && EristaMapped(hz) && eristaVolt(hz) == 2000)
  }

  /** a and a + STEP are both offered by the hardware. */
  predicate HasMiddle(freqs: seq<Hz>, a: int) {
    a in freqs && a + STEP in freqs
  }

  /** Where the 38.4 MHz grid ends: the largest frequency one step above another, or the
      largest frequency when there is no such pair. */
  ghost predicate GridEnd(freqs: seq<Hz>, kMax: int) {
    if exists a :: HasMiddle(freqs, a) then
      HasMiddle(freqs, kMax - STEP) && forall a :: HasMiddle(freqs, a) ==> a + STEP <= kMax
    else if freqs == [] then kMax == 0
    else kMax in freqs && forall f :: f in freqs ==> f <= kMax
  }

  /** Frequencies a Mariko GPU row may hold. */
  ghost predicate MarikoEntry(freqs: seq<Hz>, middle: bool, kMax: int, f: int) {
    || OnGrid(freqs, middle, kMax, f)
    || (f in freqs && f > kMax)
  }

  ghost predicate OnGrid(freqs: seq<Hz>, middle: bool, kMax: int, f: int) {
    PCV_STEP <= f <= kMax && f % STEP == 0 && if f % PCV_STEP != 0 then middle else f in freqs
  }

  method FindGridEnd(freqs: seq<Hz>) returns (kMax: Hz)
    requires Ascending(freqs)
    ensures GridEnd(freqs, kMax)
  {
    kMax := 0;
    ghost var found := false;
    for i := 0 to |freqs|
      invariant found ==> HasMiddle(freqs, kMax - STEP)
      invariant found ==> forall k :: 0 <= k < i && HasMiddle(freqs, freqs[k]) ==> freqs[k] + STEP <= kMax
      invariant found ==> kMax > 0
      invariant !found ==> kMax == 0 && forall k :: 0 <= k < i ==> !HasMiddle(freqs, freqs[k])
      invariant found ==> exists k :: 0 <= k < i && freqs[k] + STEP == kMax
    {
      for j := 0 to |freqs|
        invariant forall k :: 0 <= k < j ==> freqs[k] != freqs[i] + STEP
      {
        if freqs[j] == freqs[i] + STEP {
          kMax := freqs[j];
          found := true;
          break;
        }
      }
    }
    if kMax == 0 {
      for i := 0 to |freqs|
        invariant forall k :: 0 <= k < i ==> freqs[k] <= kMax
        invariant kMax == 0 || kMax in freqs
        invariant i > 0 && kMax == 0 ==> freqs[0] == 0
      {
        if freqs[i] > kMax {
          kMax := freqs[i];
        }
      }
    }
  }

  /** No list entry is within one step of the 32-bit limit. */
  ghost predicate InRange(freqs: seq<Hz>) {
    forall i :: 0 <= i < |freqs| ==> freqs[i] + STEP < TWO_32
  }

  /** The table holds every Mariko entry below bound and nothing else. */
  ghost predicate HoldsBelow(table: seq<Hz>, freqs: seq<Hz>, middle: bool, kMax: int, bound: int) {
    && Ascending(table) && |table| <= LIST_MAX
    && (forall k :: 0 <= k < |table| ==> table[k] < bound && MarikoEntry(freqs, middle, kMax, table[k]))
    && (forall f :: MarikoEntry(freqs, middle, kMax, f) && f < bound ==> f in table)
  }

  /** Every Mariko entry is in the table, unless the table is full; then only entries
      above all of it are missing. */
  ghost predicate IsMarikoRow(table: seq<Hz>, freqs: seq<Hz>, middle: bool, kMax: int) {
    exists bound :: HoldsBelow(table, freqs, middle, kMax, bound)
      && (|table| == LIST_MAX || forall f :: MarikoEntry(freqs, middle, kMax, f) ==> f < bound)
  }

  lemma PushEntry(table: seq<Hz>, freqs: seq<Hz>, middle: bool, kMax: int, f: Hz, next: int)
    requires HoldsBelow(table, freqs, middle, kMax, f) && |table| < LIST_MAX
    requires MarikoEntry(freqs, middle, kMax, f) && f < next
    requires forall g :: f < g < next ==> !MarikoEntry(freqs, middle, kMax, g)
    ensures HoldsBelow(table + [f], freqs, middle, kMax, next)
  {
    var longer := table + [f];
    assert longer[|table|] == f;
    assert forall g :: g in table ==> g in longer;
  }

  lemma SkipEntry(table: seq<Hz>, freqs: seq<Hz>, middle: bool, kMax: int, f: int, next: int)
    requires HoldsBelow(table, freqs, middle, kMax, f) && f <= next
    requires forall g :: f <= g < next ==> !MarikoEntry(freqs, middle, kMax, g)
    ensures HoldsBelow(table, freqs, middle, kMax, next)
  {
  }

  /** Grid points are STEP apart, so between f and f + STEP nothing else can be added. */
  lemma NothingBetween(freqs: seq<Hz>, middle: bool, kMax: int, f: int, g: int)
    requires f % STEP == 0 && f < g < f + STEP && g <= kMax
    ensures !MarikoEntry(freqs, middle, kMax, g)
  {
  }

  function Min(a: int, b: int): int { if a < b then a else b }

  /** The grid part of a Mariko GPU row. */
  method GridRow(freqs: seq<Hz>, middle: bool, kMax: Hz) returns (table: seq<Hz>, ghost bound: int)
    requires kMax + STEP < TWO_32
    ensures HoldsBelow(table, freqs, middle, kMax, bound) && bound <= kMax + 1
    ensures |table| < LIST_MAX ==> bound == kMax + 1
  {
    table := [];
    var f := PCV_STEP;
    bound := Min(f, kMax + 1);
    while f <= kMax && |table| < LIST_MAX
      invariant f % STEP == 0 && f >= PCV_STEP
      invariant bound == Min(f, kMax + 1)
      invariant HoldsBelow(table, freqs, middle, kMax, bound)
      decreases kMax + STEP - f
    {
      bound := Min(f + STEP, kMax + 1);
      GridGap(freqs, middle, kMax, f);
      if (if f % PCV_STEP != 0 then middle else f in freqs) {
        PushEntry(table, freqs, middle, kMax, f, bound);
        table := table + [f];
      } else {
        SkipEntry(table, freqs, middle, kMax, f, bound);
      }
      f := f + STEP;
    }
  }

  lemma GridGap(freqs: seq<Hz>, middle: bool, kMax: int, f: int)
    requires f % STEP == 0
    ensures forall g :: f < g < Min(f + STEP, kMax + 1) ==> !MarikoEntry(freqs, middle, kMax, g)
  {
    forall g | f < g < Min(f + STEP, kMax + 1)
      ensures !MarikoEntry(freqs, middle, kMax, g)
    {
      NothingBetween(freqs, middle, kMax, f, g);
    }
  }

  function After(freqs: seq<Hz>, kMax: int, i: nat): int
    requires i <= |freqs|
  {
    if i == 0 || freqs[i - 1] < kMax then kMax + 1 else freqs[i - 1] + 1
  }

  ghost predicate IsMarikoRowOf(table: seq<Hz>, freqs: seq<Hz>, middle: bool) {
    exists kMax :: GridEnd(freqs, kMax) && IsMarikoRow(table, freqs, middle, kMax)
  }

  method MarikoGpuRow(freqs: seq<Hz>, middle: bool) returns (table: seq<Hz>, ghost kMax: Hz)
    requires Ascending(freqs) && InRange(freqs)
    ensures GridEnd(freqs, kMax) && IsMarikoRow(table, freqs, middle, kMax)
    ensures IsMarikoRowOf(table, freqs, middle)
  {
    var end := FindGridEnd(freqs);
    kMax := end;
    GridEndListed(freqs, end);
    ghost var bound;
    table, bound := GridRow(freqs, middle, end);
    var i := 0;
    while i < |freqs| && |table| < LIST_MAX
      invariant i <= |freqs|
      invariant HoldsBelow(table, freqs, middle, end, bound)
      invariant |table| == LIST_MAX || bound == After(freqs, end, i)
    {
      ghost var next := After(freqs, end, i + 1);
      if freqs[i] > end {
        SkipEntry(table, freqs, middle, end, bound, freqs[i]);
        PushEntry(table, freqs, middle, end, freqs[i], next);
        table := table + [freqs[i]];
      }
      bound := next;
      i := i + 1;
    }
  }

  lemma GridEndListed(freqs: seq<Hz>, kMax: int)
    requires Ascending(freqs) && InRange(freqs) && GridEnd(freqs, kMax)
    ensures kMax + STEP < TWO_32
  {
  }

  /** The rows of every other module: the kept part of the hardware list, in order. */
  ghost function KeptPart(clock: ClockModule, soc: Soc, freqs: seq<Hz>, eristaVolt: Hz -> nat): seq<Hz> {
    if freqs == [] then []
    else
      var last := freqs[|freqs| - 1];
      KeptPart(clock, soc, freqs[..|freqs| - 1], eristaVolt) + if Kept(clock, soc, last, eristaVolt) then [last] else []
  }

  method RefreshFreqTableRow(clock: ClockModule, soc: Soc, freqs: seq<Hz>, middle: bool, eristaVolt: Hz -> nat)
    returns (table: seq<Hz>, ghost kMax: Hz)
    requires Ascending(freqs) && InRange(freqs) && |freqs| <= LIST_MAX
    ensures clock == GPU && soc == Mariko ==> GridEnd(freqs, kMax) && IsMarikoRow(table, freqs, middle, kMax)
    ensures clock == GPU && soc == Mariko ==> IsMarikoRowOf(table, freqs, middle)
    ensures !(clock == GPU && soc == Mariko) ==> table == KeptPart(clock, soc, freqs, eristaVolt)
  {
    kMax := 0;
    if clock == GPU && soc == Mariko {
      table, kMax := MarikoGpuRow(freqs, middle);
      return;
    }
    table := [];
    for i := 0 to |freqs|
      invariant table == KeptPart(clock, soc, freqs[..i], eristaVolt)
    {
      assert freqs[..i + 1][..i] == freqs[..i];
      if !IsAssignableHz(clock, freqs[i]) {
        continue;
      }
      if clock == GPU && soc == Erista {
        if EristaMapped(freqs[i]) && eristaVolt(freqs[i]) == 2000 {
          continue;
        }
      }
      table := table + [freqs[i]];
    }
    assert freqs[..|freqs|] == freqs;
  }

  /** Every row is strictly ascending, short enough, and drawn from the hardware list or
      the middle steps; a plain row loses exactly the entries that are not kept. */
  lemma {:induction false} KeptPartIsSorted(clock: ClockModule, soc: Soc, freqs: seq<Hz>, eristaVolt: Hz -> nat)
    requires Ascending(freqs)
    ensures Ascending(KeptPart(clock, soc, freqs, eristaVolt))
    ensures |KeptPart(clock, soc, freqs, eristaVolt)| <= |freqs|
    ensures forall f :: f in KeptPart(clock, soc, freqs, eristaVolt) <==> f in freqs && Kept(clock, soc, f, eristaVolt)
    ensures forall f :: f in freqs ==>
      (Kept(clock, soc, f, eristaVolt) <==>
        && (clock == CPU ==> f >= 500_000_000) && (clock == MEM ==> f >= 665_600_000)
        && !(clock == GPU && soc == Erista && f % 38_400_000 == 0 && 76_800_000 <= f <= 1_075_200_000 && eristaVolt(f) == 2000))
  {
    if freqs != [] {
      var init, last := freqs[..|freqs| - 1], freqs[|freqs| - 1];
      KeptPartIsSorted(clock, soc, init, eristaVolt);
      assert freqs == init + [last];
      assert forall k :: 0 <= k < |KeptPart(clock, soc, init, eristaVolt)| ==> KeptPart(clock, soc, init, eristaVolt)[k] in init;
    }
  }

  /** A Mariko GPU row: ascending, at most 48 entries, each from the list or, if wanted, an
      odd multiple of 38.4 MHz; and no entry of the list above the grid is lost while there
      is room. */
  lemma MarikoRowIsSorted(table: seq<Hz>, freqs: seq<Hz>, middle: bool, kMax: int)
    requires IsMarikoRow(table, freqs, middle, kMax)
    ensures Ascending(table) && |table| <= LIST_MAX
    ensures forall f :: f in table ==> f in freqs || (middle && f % STEP == 0 && f % PCV_STEP != 0 && f <= kMax)
    ensures |table| < LIST_MAX ==> forall f :: f in table <==> MarikoEntry(freqs, middle, kMax, f)
    ensures forall f, k :: MarikoEntry(freqs, middle, kMax, f) && f !in table && 0 <= k < |table| ==> table[k] < f
  {
  }
}
