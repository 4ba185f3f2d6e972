/** Laying modules and arguments out inside an ASLR window:
    ldr_process_creation.cpp, DecideAddressSpaceLayout and GenerateSecureRandom.

    The numeric bounds of the three ASLR windows and ArgumentBufferSize are declared
    outside the repository; they are the parameters window and bufferSize. */
module AddressSpaceLayout {
  import opened MachineInts
  import opened NsoHeaders

  const MODULE_SIZE_MAX: nat := 0x8_0000_0000
  const BLOCK_UNIT: nat := 0x20_0000

  datatype Window = Window(start: u64, size: u64) {
    ghost predicate Valid() { Paged(start) && start + size < TWO_64 }
  }

  datatype ProcessInfo = ProcessInfo(codeAddress: u64, totalSize: u64, argsAddress: u64, argsSize: u64,
                                     nsoAddress: seq<nat>, nsoSize: seq<nat>)

  datatype Layout = Done(info: ProcessInfo) | InvalidNso | OutOfMemory

  /** util::AlignUp(x, MemoryPageSize) on 64-bit words. */
  function PageUp(x: u64): (r: u64)
    ensures Paged(r)
    ensures x + PAGE <= TWO_64 ==> x <= r < x + PAGE
    ensures x + PAGE > TWO_64 ==> r == 0
  {
    (x + PAGE - 1) % TWO_64 / PAGE * PAGE
  }

  function Max(a: nat, b: nat): nat { if a < b then b else a }

  /** Bytes of module memory that hold something: the furthest segment end plus bss. */
  function Extent(h: NsoHeader): (r: nat)
    ensures h.text.End() + h.bssSize <= r && h.ro.End() + h.bssSize <= r && h.rw.End() + h.bssSize <= r
    ensures r == h.text.End() + h.bssSize || r == h.ro.End() + h.bssSize || r == h.rw.End() + h.bssSize
    ensures r < MODULE_SIZE_MAX - PAGE
  {
    Max(Max(h.text.End(), h.ro.End()), h.rw.End()) + h.bssSize
  }

  /** The size of the argument area, in 64-bit arithmetic; None without arguments. */
  function ArgsSize(argument: Option<u64>, bufferSize: u64): (r: Option<u64>)
    ensures r.Some? ==> Paged(r.value)
  {
    if argument.None? then None else Some(PageUp((8 + argument.value * 2 + bufferSize) % TWO_64))
  }

  /** A header of two words, twice the argument and the buffer take this many bytes; the area
      is the least number of whole pages that holds them. */
  lemma ArgsSizeHolds(argument: u64, bufferSize: u64)
    ensures var need := 2 * 4 + 2 * argument + bufferSize;
            && ArgsSize(Some(argument), bufferSize).Some?
            && (need + PAGE <= TWO_64 ==> need <= ArgsSize(Some(argument), bufferSize).value < need + PAGE)
    ensures ArgsSize(None, bufferSize) == None
  {
    var need := 2 * 4 + 2 * argument + bufferSize;
    assert need < TWO_64 ==> need % TWO_64 == need;
  }

  /** Bytes that module i adds to the image. */
  function Step(headers: seq<NsoHeader>, args: Option<nat>, i: nat): nat
    requires i < |headers|
  {
    PageUp(Extent(headers[i])) + if i == 0 && args.Some? then args.value else 0
  }

  /** Bytes taken by the first n modules, with the arguments behind the first one. */
  function TotalSize(headers: seq<NsoHeader>, args: Option<nat>, n: nat): nat
    requires n <= |headers|
  {
    if n == 0 then 0
    else TotalSize(headers, args, n - 1) + Step(headers, args, n - 1)
  }

  function ModuleEnd(info: ProcessInfo, i: nat): nat
    requires i < |info.nsoAddress| == |info.nsoSize|
  {
    info.nsoAddress[i] + info.nsoSize[i]
  }

  /** End of module i and of what follows it up to the next module. */
  function EndOf(info: ProcessInfo, i: nat): nat
    requires i < |info.nsoAddress| == |info.nsoSize|
  {
    ModuleEnd(info, i) + if i == 0 then info.argsSize else 0
  }

  ghost predicate Adjacent(info: ProcessInfo, i: nat)
    requires i + 1 < |info.nsoAddress| == |info.nsoSize|
  {
    info.nsoAddress[i + 1] == EndOf(info, i)
  }

  /** Modules and arguments follow each other without gap or overlap from codeAddress
      to codeAddress + totalSize. */
  ghost predicate Tiled(info: ProcessInfo) {
    var n := |info.nsoAddress|;
    && |info.nsoSize| == n
    && (forall i :: 0 <= i < n ==> info.nsoSize[i] > 0)
    && (if n == 0 then info.totalSize == 0 && info.argsSize == 0
        else info.nsoAddress[0] == info.codeAddress && EndOf(info, n - 1) == info.codeAddress + info.totalSize)
    && (forall i :: 0 <= i < n - 1 ==> Adjacent(info, i))
    && (if n > 0 && info.argsAddress != 0 then info.argsAddress == ModuleEnd(info, 0) else info.argsSize == 0)
  }

  /** A whole number of pages. */
  ghost predicate Paged(x: int) { x % PAGE == 0 }

  /** Each module gets the pages its extent needs and the arguments get theirs. */
  ghost predicate Sized(info: ProcessInfo, headers: seq<NsoHeader>, args: Option<nat>) {
    && |info.nsoAddress| == |info.nsoSize| <= |headers|
    && (forall i :: 0 <= i < |info.nsoSize| ==> Holds(info.nsoSize[i], headers[i]))
    && (|info.nsoSize| > 0 && args.Some? ==> info.argsAddress != 0 && info.argsSize == args.value)
    && (|info.nsoSize| == 0 || args.None? ==> info.argsAddress == 0)
  }

  /** size is the least number of whole pages that holds the module. */
  ghost predicate Holds(size: nat, h: NsoHeader) {
    Paged(size) && Extent(h) <= size < Extent(h) + PAGE
  }

  /** The layout the source promises for these headers and arguments. */
  ghost predicate Packed(info: ProcessInfo, headers: seq<NsoHeader>, args: Option<nat>) {
    Tiled(info) && Sized(info, headers, args) && Paged(info.codeAddress)
  }

  ghost predicate InWindow(info: ProcessInfo, window: Window) {
    window.start <= info.codeAddress && info.codeAddress + info.totalSize <= window.start + window.size
  }

  function GenerateSecureRandom(rand: u64, max: u64): (r: u64)
    requires max + 1 < TWO_64
    ensures r <= max
  {
    rand % (max + 1)
  }

  /** A random number of 2 MiB blocks that leaves the image inside the free space. */
  method Slide(rand: u64, free: u64) returns (r: u64)
    ensures r == GenerateSecureRandom(rand, free / BLOCK_UNIT) * BLOCK_UNIT
    ensures Paged(r) && r <= free && r % BLOCK_UNIT == 0
  {
    var blocks := GenerateSecureRandom(rand, free / BLOCK_UNIT);
    BlockIsPages(blocks);
    r := blocks * BLOCK_UNIT;
  }

  lemma BlockIsPages(k: nat)
    ensures Paged(k * BLOCK_UNIT)
  {
    assert k * BLOCK_UNIT == (k * 512) * PAGE;
  }

  ghost predicate Fits(headers: seq<NsoHeader>, args: Option<nat>, window: Window) {
    TotalSize(headers, args, |headers|) <= window.size
  }

  ghost predicate NoEmptyModule(headers: seq<NsoHeader>) {
    forall i :: 0 <= i < |headers| ==> Extent(headers[i]) > 0
  }

  /** Module i is appended, and the arguments after the first one. */
  function Append(info: ProcessInfo, size: u64, args: Option<u64>): ProcessInfo
    requires info.totalSize + size + (if args.Some? then args.value else 0) < TWO_64
  {
    var end := info.totalSize + size;
    var added := info.(nsoAddress := info.nsoAddress + [info.totalSize], nsoSize := info.nsoSize + [size], totalSize := end);
    if args.Some? then added.(argsAddress := end, argsSize := args.value, totalSize := end + args.value) else added
  }

  lemma AppendKeepsTiled(info: ProcessInfo, size: u64, here: Option<u64>)
    requires Tiled(info) && info.codeAddress == 0
    requires size > 0 && (here.Some? ==> |info.nsoSize| == 0)
    requires info.totalSize + size + (if here.Some? then here.value else 0) < TWO_64
    requires |info.nsoSize| == 0 ==> info.argsAddress == 0
    ensures Tiled(Append(info, size, here))
  {
    var n := |info.nsoSize|;
    var next := Append(info, size, here);
    forall i | 0 <= i < n
      ensures i + 1 <= n && Adjacent(next, i)
    {
      assert i + 1 < n ==> Adjacent(info, i);
    }
  }

  lemma AppendKeepsSized(info: ProcessInfo, headers: seq<NsoHeader>, args: Option<nat>, size: u64, here: Option<u64>)
    requires Sized(info, headers, args)
    requires |info.nsoSize| < |headers| && size > 0 && Holds(size, headers[|info.nsoSize|])
    requires here == (if |info.nsoSize| == 0 then args else None)
    requires info.totalSize + size + (if here.Some? then here.value else 0) < TWO_64
    ensures Sized(Append(info, size, here), headers, args)
  {
  }

  /** The size checks of one module. The mask with AutoLoadModuleSizeMax - 1 never cuts
      a module, because extents of 32-bit headers stay below it. */
  method ModuleSize(h: NsoHeader) returns (ok: bool, aligned: u64)
    ensures ok <==> Extent(h) > 0
    ensures ok ==> aligned == PageUp(Extent(h)) && aligned > 0 && Holds(aligned, h)
  {
    var extent := Max(Max(h.text.End(), h.ro.End()), h.rw.End()) + h.bssSize;
    aligned := PageUp(extent) % MODULE_SIZE_MAX;
    ok := extent <= aligned && aligned > 0;
  }

  /** One round of the offset loop; the arguments go behind the first module. */
  method PlaceModule(info: ProcessInfo, headers: seq<NsoHeader>, i: nat, argument: Option<u64>, bufferSize: u64,
                     ghost args: Option<nat>)
    returns (ok: bool, next: ProcessInfo)
    requires i == |info.nsoSize| < |headers| && info.codeAddress == 0
    requires args == ArgsSize(argument, bufferSize) && Packed(info, headers, args)
    ensures ok <==> Extent(headers[i]) > 0 && info.totalSize + Step(headers, args, i) < TWO_64
    ensures ok ==> Packed(next, headers, args)
    ensures ok ==> next.codeAddress == 0 && |next.nsoSize| == i + 1
    ensures ok ==> next.totalSize == info.totalSize + Step(headers, args, i)
  {
    var sized, aligned := ModuleSize(headers[i]);
    if !sized || info.totalSize + aligned >= TWO_64 {
      return false, info;
    }
    var here := None;
    if i == 0 && argument.Some? {
      here := ArgsSize(argument, bufferSize);
      if info.totalSize + aligned + here.value >= TWO_64 {
        return false, info;
      }
    }
    AppendKeepsTiled(info, aligned, here);
    AppendKeepsSized(info, headers, args, aligned, here);
    return true, Append(info, aligned, here);
  }

  /** The first n modules have their offsets. */
  ghost predicate Placed(info: ProcessInfo, headers: seq<NsoHeader>, args: Option<nat>, n: nat) {
    && n <= |headers| && |info.nsoSize| == n && info.codeAddress == 0
    && Packed(info, headers, args) && info.totalSize == TotalSize(headers, args, n)
    && NoEmptyModule(headers[..n])
  }

  ghost predicate Unplaceable(headers: seq<NsoHeader>, args: Option<nat>) {
    !NoEmptyModule(headers) || TotalSize(headers, args, |headers|) >= TWO_64
  }

  method NextOffset(info: ProcessInfo, headers: seq<NsoHeader>, i: nat, argument: Option<u64>, bufferSize: u64,
                    ghost args: Option<nat>)
    returns (ok: bool, next: ProcessInfo)
    requires i < |headers| && args == ArgsSize(argument, bufferSize) && Placed(info, headers, args, i)
    ensures if ok then Placed(next, headers, args, i + 1) else Unplaceable(headers, args)
  {
    TooLarge(headers, args, i);
    ok, next := PlaceModule(info, headers, i, argument, bufferSize, args);
  }

  lemma NothingPlaced(headers: seq<NsoHeader>, args: Option<nat>)
    ensures Placed(ProcessInfo(0, 0, 0, 0, [], []), headers, args, 0)
  {
  }

  method DecideOffsets(headers: seq<NsoHeader>, argument: Option<u64>, bufferSize: u64)
    returns (ok: bool, info: ProcessInfo)
    ensures if ok then Placed(info, headers, ArgsSize(argument, bufferSize), |headers|)
            else Unplaceable(headers, ArgsSize(argument, bufferSize))
  {
    info := ProcessInfo(0, 0, 0, 0, [], []);
    ghost var args := ArgsSize(argument, bufferSize);
    ok := true;
    var i := 0;
    NothingPlaced(headers, args);
    while i < |headers|
      invariant 0 <= i <= |headers| && Placed(info, headers, args, i)
    {
      ok, info := NextOffset(info, headers, i, argument, bufferSize, args);
      if !ok {
        return;
      }
      i := i + 1;
    }
  }

  /** Why the loop may give up: the next module is empty, or the sizes add up too far. */
  lemma TooLarge(headers: seq<NsoHeader>, args: Option<nat>, i: nat)
    requires i < |headers| && NoEmptyModule(headers[..i])
    ensures TotalSize(headers, args, i + 1) == TotalSize(headers, args, i) + Step(headers, args, i)
    ensures TotalSize(headers, args, i + 1) <= TotalSize(headers, args, |headers|)
    ensures Extent(headers[i]) > 0 ==> NoEmptyModule(headers[..i + 1])
    ensures Extent(headers[i]) == 0 ==> !NoEmptyModule(headers)
  {
    TotalSizeGrows(headers, args, i + 1, |headers|);
  }

  /** Every module ends inside the image. */
  lemma {:induction false} EndsInside(info: ProcessInfo, i: nat)
    requires Tiled(info) && i < |info.nsoSize|
    ensures info.nsoAddress[i] < EndOf(info, i) <= info.codeAddress + info.totalSize
    decreases |info.nsoSize| - i
  {
    if i + 1 < |info.nsoSize| {
      EndsInside(info, i + 1);
      assert Adjacent(info, i);
    }
  }

  /** The last loop of the layout: offsets become addresses. */
  method Rebase(info: ProcessInfo, ghost headers: seq<NsoHeader>, ghost args: Option<nat>, start: u64)
    returns (r: ProcessInfo)
    requires Packed(info, headers, args) && info.codeAddress == 0
    requires Paged(start) && start + info.totalSize < TWO_64
    ensures Packed(r, headers, args)
    ensures r.codeAddress == start && r.totalSize == info.totalSize && r.nsoSize == info.nsoSize
  {
    var n := |info.nsoSize|;
    var address := info.nsoAddress;
    for i := 0 to n
      invariant |address| == n
      invariant forall k :: 0 <= k < i ==> address[k] == info.nsoAddress[k] + start
      invariant forall k :: i <= k < n ==> address[k] == info.nsoAddress[k]
    {
      EndsInside(info, i);  // the source's CanAddWithoutOverflow check holds
      address := address[i := address[i] + start];
    }
    var argsAddress := info.argsAddress;
    if argsAddress != 0 {
      EndsInside(info, 0);
      argsAddress := argsAddress + start;
    }
    r := info.(codeAddress := start, nsoAddress := address, argsAddress := argsAddress);
    forall i | 0 <= i < n - 1
      ensures Adjacent(r, i)
    {
      assert Adjacent(info, i);
    }
  }

  method DecideAddressSpaceLayout(headers: seq<NsoHeader>, argument: Option<u64>, bufferSize: u64,
                                  window: Window, aslr: bool, rand: u64)
    returns (r: Layout)
    requires window.Valid()
    // The only ways to fail are an empty module, sizes beyond 64 bits and an image larger
    // than the window.
    ensures r.InvalidNso? <==> Unplaceable(headers, ArgsSize(argument, bufferSize))
    ensures r.Done? <==> NoEmptyModule(headers) && Fits(headers, ArgsSize(argument, bufferSize), window)
    ensures r.Done? ==> Packed(r.info, headers, ArgsSize(argument, bufferSize)) && |r.info.nsoSize| == |headers|
    ensures r.Done? ==> r.info.totalSize == TotalSize(headers, ArgsSize(argument, bufferSize), |headers|)
    ensures r.Done? ==> InWindow(r.info, window) && StartsAt(r.info, window, aslr, rand)
    // The argument area is the least number of whole pages that holds what it is for.
    ensures r.Done? && argument.Some? && |headers| > 0 ==>
      var need := 2 * 4 + 2 * argument.value + bufferSize;
      && r.info.argsAddress == r.info.nsoAddress[0] + r.info.nsoSize[0]
      && (need + PAGE <= TWO_64 ==> need <= r.info.argsSize < need + PAGE && Paged(r.info.argsSize))
    ensures r.Done? && argument.None? ==> r.info.argsAddress == 0 && r.info.argsSize == 0
  {
    var ok, info := DecideOffsets(headers, argument, bufferSize);
    if !ok {
      return InvalidNso;
    }
    assert headers[..|headers|] == headers;
    if info.totalSize > window.size {
      return OutOfMemory;
    }
    info := MoveIntoWindow(info, headers, ArgsSize(argument, bufferSize), window, aslr, rand);
    if argument.Some? {
      ArgsSizeHolds(argument.value, bufferSize);
    }
    r := Done(info);
  }

  /** Without ASLR the image starts at the window, with it at a random 2 MiB step from there. */
  predicate StartsAt(info: ProcessInfo, window: Window, aslr: bool, rand: u64) {
    && info.totalSize <= window.size
    && info.codeAddress == window.start +
         if aslr then GenerateSecureRandom(rand, (window.size - info.totalSize) / BLOCK_UNIT) * BLOCK_UNIT else 0
  }

  /** The 2 MiB steps from the window's start at which an image fits are exactly those that
      come up for some random word. */
  lemma SlideCovers(info: ProcessInfo, window: Window, k: nat)
    requires window.Valid() && info.totalSize <= window.size
    ensures k * BLOCK_UNIT + info.totalSize <= window.size <==>
            exists rand: u64, start: u64 ::
              start == window.start + k * BLOCK_UNIT && StartsAt(info.(codeAddress := start), window, true, rand)
  {
    var free := window.size - info.totalSize;
    assert k * BLOCK_UNIT <= free <==> k <= free / BLOCK_UNIT;
    if k <= free / BLOCK_UNIT {
      assert GenerateSecureRandom(k, free / BLOCK_UNIT) == k;
      var start: u64 := window.start + k * BLOCK_UNIT;
      assert StartsAt(info.(codeAddress := start), window, true, k);
    }
  }

  /** The choice of the start address. */
  method MoveIntoWindow(info: ProcessInfo, ghost headers: seq<NsoHeader>, ghost args: Option<nat>,
                        window: Window, aslr: bool, rand: u64)
    returns (r: ProcessInfo)
    requires Packed(info, headers, args) && info.codeAddress == 0 && window.Valid() && info.totalSize <= window.size
    ensures Packed(r, headers, args) && InWindow(r, window) && StartsAt(r, window, aslr, rand)
    ensures r.totalSize == info.totalSize && r.nsoSize == info.nsoSize
  {
    var slide := 0;
    if aslr {
      slide := Slide(rand, window.size - info.totalSize);
    }
    SumPaged(window.start, slide);
    r := Rebase(info, headers, args, window.start + slide);
  }

  lemma {:induction false} TotalSizeGrows(headers: seq<NsoHeader>, args: Option<nat>, m: nat, n: nat)
    requires m <= n <= |headers|
    ensures TotalSize(headers, args, m) <= TotalSize(headers, args, n)
  {
    if m < n {
      TotalSizeGrows(headers, args, m, n - 1);
    }
  }

  /** No two modules meet, and none meets the arguments. */
  lemma {:induction false} ModulesDisjoint(info: ProcessInfo, i: nat, j: nat)
    requires Tiled(info) && i < j < |info.nsoSize|
    ensures EndOf(info, i) <= info.nsoAddress[j]
    ensures info.argsAddress != 0 ==> ModuleEnd(info, 0) <= info.argsAddress
    ensures info.argsAddress != 0 ==> info.argsAddress + info.argsSize <= info.nsoAddress[j]
    decreases j
  {
    if i + 1 < j {
      ModulesDisjoint(info, i, j - 1);
    }
    if i > 0 {
      ModulesDisjoint(info, 0, i);
    }
    assert Adjacent(info, j - 1);
  }

  /** Every address and the end of the image lie on a page boundary. */
  lemma {:induction false} AddressesPaged(info: ProcessInfo, headers: seq<NsoHeader>, args: Option<nat>, i: nat)
    requires Packed(info, headers, args) && i < |info.nsoSize|
    requires args.Some? ==> Paged(args.value)
    ensures Paged(info.nsoAddress[i]) && Paged(EndOf(info, i))
    ensures info.argsAddress != 0 ==> Paged(info.argsAddress)
  {
    assert Holds(info.nsoSize[i], headers[i]);
    if i > 0 {
      AddressesPaged(info, headers, args, i - 1);
      assert Adjacent(info, i - 1);
    }
    SumPaged(info.nsoAddress[i], info.nsoSize[i]);
    if i == 0 {
      SumPaged(ModuleEnd(info, 0), info.argsSize);
    }
  }

  lemma SumPaged(a: nat, b: nat)
    ensures Paged(a) && Paged(b) ==> Paged(a + b)
  {
  }

  lemma WholePages(start: nat, size: nat)
    requires Paged(start) && Paged(start + size)
    ensures PAGE * (size / PAGE) == size
  {
    assert start == PAGE * (start / PAGE) && start + size == PAGE * ((start + size) / PAGE);
  }

  /** The page count handed to the kernel (totalSize >> 12) covers the image exactly:
      exactly the addresses of the code region belong to a module or to the arguments. */
  lemma CodePagesCoverImage(info: ProcessInfo, headers: seq<NsoHeader>, args: Option<nat>, address: nat)
    requires Packed(info, headers, args)
    requires args.Some? ==> Paged(args.value)
    ensures info.codeAddress <= address < info.codeAddress + PAGE * (info.totalSize / PAGE) <==>
              exists i :: 0 <= i < |info.nsoSize| && info.nsoAddress[i] <= address < EndOf(info, i)
  {
    if |info.nsoSize| > 0 {
      AddressesPaged(info, headers, args, 0);
      AddressesPaged(info, headers, args, |info.nsoSize| - 1);
      WholePages(info.codeAddress, info.totalSize);
    }
    ModulesCover(info, address);
  }

  /** The modules and the arguments are exactly the image. */
  lemma ModulesCover(info: ProcessInfo, address: nat)
    requires Tiled(info)
    ensures info.codeAddress <= address < info.codeAddress + info.totalSize <==>
              exists i :: 0 <= i < |info.nsoSize| && info.nsoAddress[i] <= address < EndOf(info, i)
  {
    if info.codeAddress <= address < info.codeAddress + info.totalSize {
      SomeModuleHas(info, address);
    }
    forall i | 0 <= i < |info.nsoSize| && info.nsoAddress[i] <= address < EndOf(info, i)
      ensures info.codeAddress <= address < info.codeAddress + info.totalSize
    {
      EndsInside(info, i);
      if i > 0 {
        ModulesDisjoint(info, 0, i);
      }
    }
  }

  lemma SomeModuleHas(info: ProcessInfo, address: nat)
    requires Tiled(info) && info.codeAddress <= address < info.codeAddress + info.totalSize
    ensures exists i :: 0 <= i < |info.nsoSize| && info.nsoAddress[i] <= address < EndOf(info, i)
  {
    var i := 0;
    while address >= EndOf(info, i)
      invariant i < |info.nsoSize| && info.nsoAddress[i] <= address
      decreases |info.nsoSize| - i
    {
      assert Adjacent(info, i);
      i := i + 1;
    }
  }
}
