/** Collecting and validating the NSO headers of a process:
    ldr_process_creation.cpp, LoadAutoLoadHeaders and CheckAutoLoad. */
module NsoHeaders {
  import opened MachineInts

  const PAGE: nat := 4096

  // The fixed load order of NsoIndex: rtld, main, wkc0-9, subsdk0-9, sdk.
  const NSO_RTLD: nat := 0
  const NSO_MAIN: nat := 1
  const NSO_WKC0: nat := 2
  const NSO_WKC9: nat := 11
  const NSO_SUBSDK0: nat := 12
  const NSO_SUBSDK9: nat := 21
  const NSO_SDK: nat := 22
  const NSO_COUNT: nat := 23

  datatype Segment = Segment(fileOffset: u32, dstOffset: u32, size: u32, compressedSize: u32, compressed: bool) {
    function End(): nat { dstOffset + size }
  }

  datatype NsoHeader = NsoHeader(text: Segment, ro: Segment, rw: Segment, bssSize: u32,
                                 preventCodeReads: bool, zbic: bool)

  /** What opening and reading one NSO path gives. */
  datatype CodeFile =
    | Missing                 // OpenFile fails: the module is simply absent
    | Unreadable              // ReadFile fails
    | Truncated               // ReadFile returns fewer bytes than a header
    | Nso(header: NsoHeader)

  datatype Context = Context(headers: seq<NsoHeader>, indices: seq<nat>,
                             rtldIdx: int, mainIdx: int, sdkIdx: int, hasSubsdk: bool)
  {
    // The has_* flags of the context are set together with the positions.
    predicate HasRtld() { rtldIdx >= 0 }
    predicate HasMain() { mainIdx >= 0 }
    predicate HasSdk() { sdkIdx >= 0 }
  }

  predicate Considered(i: nat, browserDll: bool) {
    NSO_WKC0 <= i <= NSO_WKC9 ==> browserDll
  }

  /** The load order: rtld, main, ten browser libraries, ten subsdks, sdk; only the browser
      libraries depend on the flag. */
  lemma LoadOrder(i: nat, browserDll: bool)
    ensures Considered(i, browserDll) <==> browserDll || i < 2 || 12 <= i
    ensures NSO_RTLD == 0 && NSO_MAIN == 1 && NSO_SUBSDK0 == 12 && NSO_SUBSDK9 == 21 && NSO_SDK == 22 && NSO_COUNT == 23
  {
  }

  predicate Present(files: seq<CodeFile>, i: nat, browserDll: bool) {
    i < |files| && Considered(i, browserDll) && files[i].Nso?
  }

  predicate Broken(files: seq<CodeFile>, i: nat, browserDll: bool) {
    i < |files| && Considered(i, browserDll) && (files[i].Unreadable? || files[i].Truncated?)
  }

  /** pos is where module index nso was stored, or -1 when it was not. */
  ghost predicate PositionOf(indices: seq<nat>, nso: nat, pos: int) {
    if nso in indices then 0 <= pos < |indices| && indices[pos] == nso else pos == -1
  }

  /** The modules listed are exactly those present among the first n paths, in order. */
  ghost predicate Listed(ctx: Context, files: seq<CodeFile>, browserDll: bool, n: nat) {
    && |ctx.headers| == |ctx.indices| <= n <= |files|
    && (forall j, k :: 0 <= j < k < |ctx.indices| ==> ctx.indices[j] < ctx.indices[k])
    && (forall k :: 0 <= k < |ctx.indices| ==> ctx.indices[k] < n && IsModule(files, browserDll, ctx.indices[k], ctx.headers[k]))
    && (forall i: nat :: i < n && Present(files, i, browserDll) ==> i in ctx.indices)
  }

  ghost predicate IsModule(files: seq<CodeFile>, browserDll: bool, i: nat, header: NsoHeader) {
    Present(files, i, browserDll) && header == files[i].header
  }

  /** The remembered positions and flags agree with the list. */
  ghost predicate Noted(ctx: Context) {
    && PositionOf(ctx.indices, NSO_RTLD, ctx.rtldIdx)
    && PositionOf(ctx.indices, NSO_MAIN, ctx.mainIdx)
    && PositionOf(ctx.indices, NSO_SDK, ctx.sdkIdx)
    && (ctx.hasSubsdk <==> exists k :: 0 <= k < |ctx.indices| && NSO_SUBSDK0 <= ctx.indices[k] <= NSO_SUBSDK9)
  }

  /** A position is remembered exactly when its module is in the list. */
  lemma HasMeansListed(ctx: Context)
    requires Noted(ctx)
    ensures ctx.HasRtld() <==> NSO_RTLD in ctx.indices
    ensures ctx.HasMain() <==> NSO_MAIN in ctx.indices
    ensures ctx.HasSdk() <==> NSO_SDK in ctx.indices
  {
  }

  ghost predicate Collected(ctx: Context, files: seq<CodeFile>, browserDll: bool, n: nat) {
    Listed(ctx, files, browserDll, n) && Noted(ctx)
  }

  /** "Note nso is present": module i goes to the next free slot. */
  function Note(ctx: Context, i: nat, header: NsoHeader): Context {
    var added := ctx.(headers := ctx.headers + [header], indices := ctx.indices + [i]);
    var count := |ctx.indices|;
    if i == NSO_RTLD then added.(rtldIdx := count)
    else if i == NSO_MAIN then added.(mainIdx := count)
    else if NSO_SUBSDK0 <= i <= NSO_SUBSDK9 then added.(hasSubsdk := true)
    else if i == NSO_SDK then added.(sdkIdx := count)
    else added
  }

  lemma NoteKeepsListed(ctx: Context, files: seq<CodeFile>, browserDll: bool, i: nat)
    requires Present(files, i, browserDll)
    requires Listed(ctx, files, browserDll, i)
    ensures Listed(Note(ctx, i, files[i].header), files, browserDll, i + 1)
  {
    NoteMembers(ctx.indices, i);
    NoteExtends(ctx, i, files[i].header);
  }

  lemma NoteExtends(ctx: Context, i: nat, header: NsoHeader)
    ensures Note(ctx, i, header).headers == ctx.headers + [header]
    ensures Note(ctx, i, header).indices == ctx.indices + [i]
  {
  }

  lemma SkipKeepsListed(ctx: Context, files: seq<CodeFile>, browserDll: bool, i: nat)
    requires i < |files| && !Present(files, i, browserDll)
    requires Listed(ctx, files, browserDll, i)
    ensures Listed(ctx, files, browserDll, i + 1)
  {
  }

  lemma NoteKeepsNoted(ctx: Context, i: nat, header: NsoHeader)
    requires Noted(ctx) && i !in ctx.indices
    ensures Noted(Note(ctx, i, header))
  {
    NotePosition(ctx.indices, i, NSO_RTLD, ctx.rtldIdx);
    NotePosition(ctx.indices, i, NSO_MAIN, ctx.mainIdx);
    NotePosition(ctx.indices, i, NSO_SDK, ctx.sdkIdx);
    NoteSubsdk(ctx.indices, i);
  }

  lemma NoteSubsdk(indices: seq<nat>, i: nat)
    ensures (exists k :: 0 <= k < |indices + [i]| && NSO_SUBSDK0 <= (indices + [i])[k] <= NSO_SUBSDK9)
       <==> (exists k :: 0 <= k < |indices| && NSO_SUBSDK0 <= indices[k] <= NSO_SUBSDK9) || NSO_SUBSDK0 <= i <= NSO_SUBSDK9
  {
    assert (indices + [i])[|indices|] == i;
    assert forall k :: 0 <= k < |indices| ==> (indices + [i])[k] == indices[k];
  }

  lemma NoteMembers(indices: seq<nat>, i: nat)
    ensures forall j: nat :: j in indices + [i] <==> j in indices || j == i
  {
  }

  lemma NotePosition(indices: seq<nat>, i: nat, nso: nat, pos: int)
    requires i !in indices
    requires PositionOf(indices, nso, pos)
    ensures PositionOf(indices + [i], nso, if i == nso then |indices| else pos)
  {
    assert nso in indices + [i] <==> nso in indices || nso == i;
  }

  method NoteModule(ctx: Context, files: seq<CodeFile>, ghost browserDll: bool, i: nat) returns (next: Context)
    requires Present(files, i, browserDll) && Collected(ctx, files, browserDll, i)
    ensures Collected(next, files, browserDll, i + 1)
  {
    NoteKeepsListed(ctx, files, browserDll, i);
    NoteKeepsNoted(ctx, i, files[i].header);
    next := Note(ctx, i, files[i].header);
  }

  method LoadAutoLoadHeaders(files: seq<CodeFile>, browserDll: bool) returns (r: Option<Context>)
    requires |files| == NSO_COUNT
    ensures r.Some? <==> !exists i :: Broken(files, i, browserDll)
    ensures r.Some? ==> Collected(r.value, files, browserDll, NSO_COUNT)
  {
    var ctx := Context([], [], -1, -1, -1, false);
    var i := 0;
    while i < NSO_COUNT
      invariant i <= NSO_COUNT
      invariant Collected(ctx, files, browserDll, i)
      invariant forall j: nat :: j < i ==> !Broken(files, j, browserDll)
    {
      if NSO_WKC0 <= i <= NSO_WKC9 && !browserDll {
        SkipKeepsListed(ctx, files, browserDll, i);
      } else {
        match files[i] {
          case Missing =>
            SkipKeepsListed(ctx, files, browserDll, i);
          case Nso(header) =>
            ctx := NoteModule(ctx, files, browserDll, i);
          case _ =>
            // The header cannot be read: the whole launch fails.
            assert Broken(files, i, browserDll);
            return None;
        }
      }
      i := i + 1;
    }
    r := Some(ctx);
  }

  /** Segments in order, page aligned, text at zero. */
  predicate ExtentsOk(h: NsoHeader) {
    && h.text.dstOffset == 0
    && h.ro.dstOffset % PAGE == 0
    && h.rw.dstOffset % PAGE == 0
    && h.text.End() <= h.ro.dstOffset
    && h.ro.End() <= h.rw.dstOffset
  }

  predicate HeaderOk(ctx: Context, i: nat)
    requires i < |ctx.headers|
  {
    && !ctx.headers[i].preventCodeReads
    && (ctx.headers[i].zbic ==> i == ctx.mainIdx && ctx.HasRtld() && ctx.HasSdk())
    && ExtentsOk(ctx.headers[i])
  }

  ghost predicate Checked(ctx: Context, browserDll: bool) {
    && ctx.HasMain()
    && (forall i :: 0 <= i < |ctx.headers| ==> HeaderOk(ctx, i))
    && (ctx.HasSdk() ==> ctx.HasRtld())
    && (ctx.HasRtld() ==> !browserDll)
    && (browserDll ==> ctx.HasRtld() || ctx.HasSdk() || !ctx.hasSubsdk)
  }

  method CheckAutoLoad(ctx: Context, browserDll: bool) returns (ok: bool)
    ensures ok <==> Checked(ctx, browserDll)
  {
    if !ctx.HasMain() {
      return false;
    }
    for i := 0 to |ctx.headers|
      invariant forall k :: 0 <= k < i ==> HeaderOk(ctx, k)
    {
      var h := ctx.headers[i];
      if h.preventCodeReads {
        assert !HeaderOk(ctx, i);
        return false;
      }
      if (i != ctx.mainIdx || ctx.rtldIdx < 0 || ctx.sdkIdx < 0) && h.zbic {
        assert !HeaderOk(ctx, i);
        return false;
      }
      if h.text.dstOffset % PAGE != 0 || h.ro.dstOffset % PAGE != 0 || h.rw.dstOffset % PAGE != 0 {
        assert !HeaderOk(ctx, i);
        return false;
      }
      if h.text.dstOffset != 0 {
        assert !HeaderOk(ctx, i);
        return false;
      }
      // Offsets and sizes are 32-bit, so the 64-bit sums below cannot wrap.
      if h.text.dstOffset + h.text.size > h.ro.dstOffset {
        assert !HeaderOk(ctx, i);
        return false;
      }
      if h.ro.dstOffset + h.ro.size > h.rw.dstOffset {
        assert !HeaderOk(ctx, i);
        return false;
      }
    }
    if ctx.HasRtld() || ctx.HasSdk() {
      if !ctx.HasRtld() || browserDll {
        return false;
      }
    } else if ctx.hasSubsdk && browserDll {
      return false;
    }
    return true;
  }

  /** What the zbic rule is for: a module that uses the whole rest of the image as
      scratch is never the first one, so the arguments (placed after the first
      module) lie below it; and exactly rtld precedes it. */
  lemma {:induction false} ZbicOnlyAfterRtld(ctx: Context, files: seq<CodeFile>, browserDll: bool, i: nat)
    requires |files| == NSO_COUNT
    requires Collected(ctx, files, browserDll, NSO_COUNT)
    requires Checked(ctx, browserDll)
    requires i < |ctx.headers| && ctx.headers[i].zbic
    ensures i == 1 && ctx.indices[0] == NSO_RTLD && ctx.indices[1] == NSO_MAIN
  {
    assert HeaderOk(ctx, i);
    PositionAtMostIndex(ctx.indices, i);
    PositionAtMostIndex(ctx.indices, ctx.rtldIdx);
  }

  lemma {:induction false} PositionAtMostIndex(indices: seq<nat>, k: nat)
    requires forall i, j :: 0 <= i < j < |indices| ==> indices[i] < indices[j]
    requires k < |indices|
    ensures k <= indices[k]
  {
    if k > 0 {
      PositionAtMostIndex(indices, k - 1);
    }
  }
}
