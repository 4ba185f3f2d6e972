# Verified model of the Switch overclocking suite

The repository builds the software that overclocks a console: a patched process loader and
secure monitor, a system module that drives clocks and voltages, its IPC library, and two
memory tools. This project models the parts of it whose correctness spans several functions
or several threads, and proves what those parts are for:

- **The process loader** (`NsoHeaders`, `AddressSpaceLayout`, `ModuleLoading`): modules are
  collected and checked, laid out in the ASLR window, and loaded in place, with the tail of
  the mapping as scratch space for compressed data. Whatever the decompressor scribbles inside
  its window, every module ends up holding exactly its segments and zeros elsewhere, and the
  argument area is never touched.
- **Clocks and GPU voltage** (`FreqTable`, `GpuVoltage`, `Dvfs`): frequency tables, the voltage
  floor a RAM clock needs, and the tick state machine. In every intermediate hardware state of
  every run the floor in force, and the one the GPU has taken up, suffice for the RAM clock.
- **IPC messages** (`WireMemory`, `IpcWire`, `IpcWriter`, `IpcParser`, `IpcDomain`): the writer
  and the parser work on the same 0x100 bytes and undo each other, bit field by bit field.
- **Two thread protocols** (`MemTesterLockstep`, `StartBarrier`): step systems with any number
  of workers, with safety over every interleaving, absence of deadlock, and a budget that
  bounds each round.
- **Stores that must agree with a file** (`ConfigText`, `ConfigFile`, `ConfigStore`,
  `KipTable`): the in-memory configuration against what a fresh load would rebuild, and the
  table inside the KIP file.
- **Algorithms with real arithmetic** (`GfxLine`, `DisplayRefreshRate`, `DockedRefreshRate`,
  `RegisterBitmap`, `BlockCopy`, `MemoryTests`).

Code that updates state step by step is a class or a method with loops, proved against a
specification; what the specification means is proved as lemmas. `MachineInts` holds the
bounded integers. `dafny verify dfyconfig.toml` checks the whole project.

## Results that differ from what one would expect of the code

- The voltage floor is computed from the RAM target, but the clock is snapped to a table entry.
  After the change the state is safe exactly when that entry needs no more than the target
  (`Dvfs.ClockManager.SetMemClock`). A target with the whole MHz of an entry always meets this
  (`Dvfs.NamedSnapsSafely`); another target may or may not (`Dvfs.UnnamedTargets`).
- The voltage floor is monotone in the RAM clock except that clocks of 1601..1632 MHz miss the
  ramp and get its upper end (`GpuVoltage.VminMonotoneExactly`, an equivalence).
- A GPU cap can be exceeded exactly when it is no table entry and some entry lies above it
  (`FreqTable.ExceedableExactly`), for instance on Erista with the 460.8 MHz entry disabled
  (`Dvfs.DisabledEntryLiftsCap`).
- Programming 80 Hz makes read-back and setter believe in the docked state; no later handheld
  request is met (`DisplayRefreshRate.RunReadsBack`). From 69 Hz on the setter's own reading
  overflows a 32-bit int, but never into another panel rate.
- `SetProfiles` keeps memory and file in agreement exactly when the file says nothing about the
  title under another section name and the title is not zero (`ConfigStore.Settable`).
- MemTester comes to a standstill exactly when main polls a worker without a report and every
  worker waits for a value its cell does not hold or has stopped (`MemTesterLockstep.Progress`).
  The polled worker has then missed the ready phase of the first loop; main does not wait for
  that phase, so any worker can miss it, and then the first round never ends
  (`StallMeansMissed`, `MissedReadyDeadlocks`, `MissedForEver`). An empty test list would break
  the lockstep.
- The trimmed permission table refuses everything if its region ends exactly at 4 GiB
  (`RegisterBitmap.TrimmedRefinesRaw`).
- Stuck bits that are the same in both halves escape the comparison tests
  (`MemoryTests.SolidBitsFindsDifferences` and `MemoryTests.TestBitwise`, both equivalences).

## Model

| member | source | states |
|---|---|---|
| `NsoHeaders.LoadAutoLoadHeaders` | Source/Atmosphere/stratosphere/loader/source/ldr_process_creation.cpp:191-262 | collects exactly the modules that are present, in load order, with the noted positions of rtld, main and sdk; fails exactly when a considered file is broken |
| `NsoHeaders.LoadOrder` | Source/Atmosphere/stratosphere/loader/source/ldr_process_creation.cpp:191-215 | rtld, main, ten browser libraries, ten subsdks, sdk; only the browser libraries depend on the flag |
| `NsoHeaders.HasMeansListed` | Source/Atmosphere/stratosphere/loader/source/ldr_process_creation.cpp:226-256 | rtld, main and sdk count as present exactly when they are in the collected list |
| `NsoHeaders.NoteKeepsListed` | Source/Atmosphere/stratosphere/loader/source/ldr_process_creation.cpp:191-262 | noting one more module keeps the collected list complete, ordered and in step with the file list |
| `NsoHeaders.NoteKeepsNoted` | Source/Atmosphere/stratosphere/loader/source/ldr_process_creation.cpp:191-262 | the remembered positions and the subsdk flag keep agreeing with the list |
| `NsoHeaders.CheckAutoLoad` | Source/Atmosphere/stratosphere/loader/source/ldr_process_creation.cpp:264-311 | accepts exactly the contexts that satisfy every presence, ordering, extent and zstd rule |
| `NsoHeaders.ZbicOnlyAfterRtld` | Source/Atmosphere/stratosphere/loader/source/ldr_process_creation.cpp:264-311 | after a successful check a zstd module is main, comes after rtld and is therefore not the first module |
| `AddressSpaceLayout.GenerateSecureRandom` | Source/Atmosphere/stratosphere/loader/source/ldr_process_creation.cpp:539-546 | the result never exceeds the bound |
| `AddressSpaceLayout.Slide` | Source/Atmosphere/stratosphere/loader/source/ldr_process_creation.cpp:621-626 | the slide is a multiple of 2 MiB that leaves the image inside the free space |
| `AddressSpaceLayout.SlideCovers` | Source/Atmosphere/stratosphere/loader/source/ldr_process_creation.cpp:539-626 | exactly the 2 MiB steps at which the image fits its window come up for some random word |
| `AddressSpaceLayout.ModuleSize` | Source/Atmosphere/stratosphere/loader/source/ldr_process_creation.cpp:561-573 | a module's size covers all three extents and is page aligned, or the overflow is reported |
| `AddressSpaceLayout.PlaceModule` | Source/Atmosphere/stratosphere/loader/source/ldr_process_creation.cpp:559-587 | placing one more module extends the tiling by its pages and, after main, by the arguments |
| `AddressSpaceLayout.ArgsSizeHolds` | Source/Atmosphere/stratosphere/loader/source/ldr_process_creation.cpp:577-583 | the argument area is the least number of whole pages that holds two words, twice the argument and the buffer |
| `AddressSpaceLayout.DecideOffsets` | Source/Atmosphere/stratosphere/loader/source/ldr_process_creation.cpp:548-587 | the modules and arguments tile the interval from 0 to the total size without gap or overlap; it fails exactly on overflow |
| `AddressSpaceLayout.Rebase` | Source/Atmosphere/stratosphere/loader/source/ldr_process_creation.cpp:628-641 | moving the image to its start address keeps the tiling |
| `AddressSpaceLayout.DecideAddressSpaceLayout` | Source/Atmosphere/stratosphere/loader/source/ldr_process_creation.cpp:548-644 | the image tiles its code region inside the chosen window, at the window's start or the random 2 MiB step; the argument area is the least that holds its contents; which error is returned when |
| `AddressSpaceLayout.ModulesDisjoint` | Source/Atmosphere/stratosphere/loader/source/ldr_process_creation.cpp:548-644 | any two modules, and every module and the argument area, are disjoint |
| `AddressSpaceLayout.EndsInside` | Source/Atmosphere/stratosphere/loader/source/ldr_process_creation.cpp:548-644 | every module and the argument area end inside the image |
| `AddressSpaceLayout.AddressesPaged` | Source/Atmosphere/stratosphere/loader/source/ldr_process_creation.cpp:548-644 | every module and argument address and size is page aligned |
| `AddressSpaceLayout.CodePagesCoverImage` | Source/Atmosphere/stratosphere/loader/source/ldr_process_creation.cpp:548-644 | an address lies in the code pages handed to the kernel exactly when it lies in some module or the arguments behind it |
| `ModuleLoading.LoadAutoLoadModuleSegment` | Source/Atmosphere/stratosphere/loader/source/ldr_process_creation.cpp:646-675 | writes only between the segment base and the map end, succeeds exactly when the file yields the segment, and then leaves its bytes at the base, with arbitrary bytes behind them if it was unpacked |
| `ModuleLoading.SegmentBytesMean` | Source/Atmosphere/stratosphere/loader/source/ldr_process_creation.cpp:646-675 | a segment's bytes are those at its file offset, or what the compressed ones there unpack to; they can be loaded exactly when sizes are in range, the file has them and they unpack to the segment's size |
| `ModuleLoading.LoadSegments` | Source/Atmosphere/stratosphere/loader/source/ldr_process_creation.cpp:703-709 | text, ro and rw are all in place after loading in this order, although each load may scribble up to the end of the mapping |
| `ModuleLoading.ClearGaps` | Source/Atmosphere/stratosphere/loader/source/ldr_process_creation.cpp:711-717 | the three gaps are zero afterwards and no segment byte changes |
| `ModuleLoading.LoadAutoLoadModule` | Source/Atmosphere/stratosphere/loader/source/ldr_process_creation.cpp:690-755 | a module's region holds exactly its segments and zeros |
| `ModuleLoading.ImageKept` | Source/Atmosphere/stratosphere/loader/source/ldr_process_creation.cpp:690-755 | writing elsewhere keeps a finished module image |
| `ModuleLoading.LoadedUpToNext` | Source/Atmosphere/stratosphere/loader/source/ldr_process_creation.cpp:757-796 | loading the next module, with its scratch window up to the end of the image for zstd, keeps all earlier modules |
| `ModuleLoading.ArgumentsKept` | Source/Atmosphere/stratosphere/loader/source/ldr_process_creation.cpp:757-796 | no load step writes into the argument area |
| `ModuleLoading.ArgumentsZero` | Source/Atmosphere/stratosphere/loader/source/ldr_process_creation.cpp:757-796 | the argument area is still all zero, as it was mapped, when it is filled |
| `ModuleLoading.LoadAutoLoadModules` | Source/Atmosphere/stratosphere/loader/source/ldr_process_creation.cpp:757-796 | after success every module region holds exactly its image and the argument area was never scratch |
| `ModuleLoading.CreateProcessAndLoadAutoLoadModules` | Source/Atmosphere/stratosphere/loader/source/ldr_process_creation.cpp:798-820 | succeeds exactly when the layout fits and every module can be loaded; then a tiled image in the window with every module in place |
| `ModuleLoading.ImageHoldsSegment` | Source/Atmosphere/stratosphere/loader/source/ldr_process_creation.cpp:690-796 | in a finished image every segment of every module holds the bytes at its own file offset, or what the compressed ones there unpack to |
| `ModuleLoading.ArgumentAreaIsZero` | Source/Atmosphere/stratosphere/loader/source/ldr_process_creation.cpp:757-796 | in a finished image every byte of the argument area is still zero |
| `ModuleLoading.CreateProcess` | Source/Atmosphere/stratosphere/loader/source/ldr_process_creation.cpp:822-896 | from the files on: succeeds exactly when every considered file is readable, the modules found pass the checks, fit the window and can be loaded; the whole process image is then right |
| `ModuleLoading.PresentModuleIsLoaded` | Source/Atmosphere/stratosphere/loader/source/ldr_process_creation.cpp:822-896 | every module file that is present is in the image of a launched process, segment by segment, from that file |
| `ModuleLoading.HeadersReady` | Source/Atmosphere/stratosphere/loader/source/ldr_process_creation.cpp:264-311 | what loading needs of the headers follows from the checks |
| `FreqTable.GetNearestHz` | Source/ryazha-clk/sysmodule/src/mgr/clock_manager.cpp:127-144 | the entry nearest to the request, ties low, among those up to the first one at or above the cap |
| `FreqTable.NearestIsLocal` | Source/ryazha-clk/sysmodule/src/mgr/clock_manager.cpp:127-144 | in an ascending table the local comparison of the loop finds a global minimum |
| `FreqTable.NearestIsUnique` | Source/ryazha-clk/sysmodule/src/mgr/clock_manager.cpp:127-144 | the nearest entry is determined, and it is its own nearest entry |
| `FreqTable.NeverAboveListedCap` | Source/ryazha-clk/sysmodule/src/mgr/clock_manager.cpp:127-144 | the result never exceeds a cap that is a table entry |
| `FreqTable.CapExceededExactly` | Source/ryazha-clk/sysmodule/src/mgr/clock_manager.cpp:127-144 | a request gets an entry above the cap exactly when the last candidate lies above it and the request is nearer to that one; never with a listed cap |
| `FreqTable.ExceedableExactly` | Source/ryazha-clk/sysmodule/src/mgr/clock_manager.cpp:127-144 | some request exceeds a cap exactly when the cap is no entry and some entry lies above it |
| `FreqTable.FindGridEnd` | Source/ryazha-clk/sysmodule/src/mgr/clock_manager.cpp:185-203 | the largest clock 38.4 MHz above a listed one, else the largest listed clock |
| `FreqTable.MarikoGpuRow` | Source/ryazha-clk/sysmodule/src/mgr/clock_manager.cpp:183-232 | the Mariko GPU row holds exactly the grid entries, the middle steps wanted and the clocks above the grid |
| `FreqTable.GridRow` | Source/ryazha-clk/sysmodule/src/mgr/clock_manager.cpp:205-222 | up to a bound the row holds exactly the wanted grid entries, ascending |
| `FreqTable.RefreshFreqTableRow` | Source/ryazha-clk/sysmodule/src/mgr/clock_manager.cpp:171-293 | the row is the Mariko grid row or the assignable clocks, at most 48 entries, strictly ascending |
| `FreqTable.KeptPartIsSorted` | Source/ryazha-clk/sysmodule/src/mgr/clock_manager.cpp:234-290 | filtering a strictly ascending list keeps it so and keeps exactly the clocks of at least 500 MHz for the CPU, 665.6 MHz for RAM, and on Erista the GPU clocks not disabled by their voltage |
| `FreqTable.MarikoRowIsSorted` | Source/ryazha-clk/sysmodule/src/mgr/clock_manager.cpp:183-232 | strictly ascending, at most 48 entries, each a listed clock or a multiple of 38.4 MHz on the grid |
| `GpuVoltage.GetMinimumGpuVmin` | Source/ryazha-clk/sysmodule/src/board/board_volt.cpp:423-484 | the floor given by the ramp and the tables |
| `GpuVoltage.Ramp` | Source/ryazha-clk/sysmodule/src/board/board_volt.cpp:441-449 | the ramp is the linear interpolation, rounded to 5 mV and clamped |
| `GpuVoltage.RampStepIsInterpolation` | Source/ryazha-clk/sysmodule/src/board/board_volt.cpp:436-444 | the per-bracket closed forms equal the source's formula |
| `GpuVoltage.SnapIsNearest` | Source/ryazha-clk/sysmodule/src/board/board_volt.cpp:445-447 | rounding gives the nearest multiple of 5 mV inside the range and the nearer end outside |
| `GpuVoltage.RampEnds` | Source/ryazha-clk/sysmodule/src/board/board_volt.cpp:436-449 | the ramp starts at 535 or 525 mV and ends at the 590 mV with which the table begins |
| `GpuVoltage.UnknownBracket` | Source/ryazha-clk/sysmodule/src/board/board_volt.cpp:433-434 | an unknown speedo bracket counts as the first |
| `GpuVoltage.LookUp` | Source/ryazha-clk/sysmodule/src/board/board_volt.cpp:452-458 | the voltage of the first entry at or above the clock, else the last |
| `GpuVoltage.VminRange` | Source/ryazha-clk/sysmodule/src/board/board_volt.cpp:423-484 | the floor is 0 up to 1600 MHz and within 525..815 above |
| `GpuVoltage.VminMonotoneExactly` | Source/ryazha-clk/sysmodule/src/board/board_volt.cpp:423-484 | a faster clock never needs less, exactly outside the 1601..1632 MHz hole of the Mariko ramp |
| `GpuVoltage.VminFallsWithBracket` | Source/ryazha-clk/sysmodule/src/board/board_volt.cpp:423-484 | a higher bracket among 0..3 never needs more |
| `GpuVoltage.NeededVminRange` | Source/ryazha-clk/sysmodule/src/mgr/clock_manager.cpp:338-348 | for every configured offset the value written is 0 or within 445..1000 |
| `GpuVoltage.OffsetVminExact` | Source/ryazha-clk/sysmodule/src/mgr/clock_manager.cpp:338-348 | the 32-bit sum never wraps: the plain sum with an offset of at least -80, at most 1000 |
| `GpuVoltage.NeededVminGrows` | Source/ryazha-clk/sysmodule/src/mgr/clock_manager.cpp:338-348 | with a fixed offset the value written is monotone in the RAM clock |
| `GpuVoltage.GpuVoltData.PcvHijackGpuVolts` | Source/ryazha-clk/sysmodule/src/board/board_volt.cpp:392-421 | the live table is the pristine one raised to the floor in force, whether or not handle and write succeed |
| `GpuVoltage.RaisedIsFloor` | Source/ryazha-clk/sysmodule/src/board/board_volt.cpp:392-421 | a nonzero entry becomes the larger of itself and the floor, raising twice is raising to the larger, and 0 restores the table |
| `GpuVoltage.RunCalls` | Source/ryazha-clk/sysmodule/src/board/board_volt.cpp:392-421 | over any sequence of calls, with failures, the table is the pristine one raised to the last successful floor |
| `GpuVoltage.LastSuccessDecides` | Source/ryazha-clk/sysmodule/src/board/board_volt.cpp:392-421 | the floor in force is that of the last call that went through, 0 when none did |
| `Dvfs.CapShape` | Source/ryazha-clk/sysmodule/src/mgr/clock_manager.cpp:73-125 | no cap for RAM or with uncapped clocks; the GPU has one exactly in the handheld and USB profiles, a fixed multiple of 76.8 MHz that grows with the undervolt level; the CPU has one on Erista on battery |
| `Dvfs.DisabledEntryLiftsCap` | Source/ryazha-clk/sysmodule/src/mgr/clock_manager.cpp:234-290 | on Erista, with the 460.8 MHz entry disabled and a higher one kept, some request gets a GPU clock above the battery cap |
| `Dvfs.SnapsToNamed` | Source/ryazha-clk/sysmodule/src/mgr/clock_manager.cpp:489-492 | a target with the whole MHz of an entry, the entry itself included, snaps to an entry of that MHz |
| `Dvfs.NamedSnapsSafely` | Source/ryazha-clk/sysmodule/src/mgr/clock_manager.cpp:489-522 | so the snapped clock needs no higher floor than the target |
| `Dvfs.SettledMoveIsSafe` | Source/ryazha-clk/sysmodule/src/mgr/clock_manager.cpp:489-522 | from a safe state at a stock or listed clock the whole move is safe as soon as the snapped clock needs no more than the target, also downwards, where the floor is lowered last |
| `Dvfs.StepsOfMove` | Source/ryazha-clk/sysmodule/src/mgr/clock_manager.cpp:489-522 | the states a move passes, in its order, are all safe exactly when the move is safe |
| `Dvfs.NeededMonotone` | Source/ryazha-clk/sysmodule/src/mgr/clock_manager.cpp:338-348 | between regular RAM clocks a faster one needs at least the floor of a slower one |
| `Dvfs.StockNeedsNothing` | Source/ryazha-clk/sysmodule/src/mgr/clock_manager.cpp:389-412 | stock RAM clocks need no floor |
| `Dvfs.ClockManager.SetGpuHz` | Source/ryazha-clk/sysmodule/src/mgr/clock_manager.cpp:338-366 | setting the GPU clock takes up the floor of the table, as one step, and keeps a safe state safe |
| `Dvfs.ClockManager.SetMemHz` | Source/ryazha-clk/sysmodule/src/mgr/clock_manager.cpp:489-522 | one step to the given RAM clock; the floors stay |
| `Dvfs.ClockManager.Hijack` | Source/ryazha-clk/sysmodule/src/mgr/clock_manager.cpp:338-348 | one step to the given floor of the table; the GPU has not taken it up yet |
| `Dvfs.ClockManager.ApplyGpuDvfs` | Source/ryazha-clk/sysmodule/src/mgr/clock_manager.cpp:338-366 | two steps, after which both floors are what the target RAM clock needs; the GPU clock is snapped under its cap or stock |
| `Dvfs.ClockManager.DVFSReset` | Source/ryazha-clk/sysmodule/src/mgr/clock_manager.cpp:368-387 | the floor is dropped only with RAM at a stock clock |
| `Dvfs.ClockManager.ResetMem` | Source/ryazha-clk/sysmodule/src/mgr/clock_manager.cpp:389-420 | RAM goes to stock before the floor is dropped |
| `Dvfs.ClockManager.SetMemClock` | Source/ryazha-clk/sysmodule/src/mgr/clock_manager.cpp:489-522 | for every target: the clock becomes the nearest entry; all steps are safe exactly when nothing changes or the move is safe; the final state is safe exactly when the entry needs no more than the target |
| `Dvfs.ClockManager.SetGpuClock` | Source/ryazha-clk/sysmodule/src/mgr/clock_manager.cpp:489-522 | the GPU clock is snapped under the profile's cap |
| `Dvfs.ClockManager.SetClocks` | Source/ryazha-clk/sysmodule/src/mgr/clock_manager.cpp:422-524 | all intermediate states are safe; RAM ends at the entry nearest to its target with the floor for it, or at stock without a floor; the GPU ends at its target's entry or at stock |
| `Dvfs.ClockManager.ResetContext` | Source/ryazha-clk/sysmodule/src/mgr/clock_manager.cpp:526-560 | four steps: GPU to stock, RAM to stock, the floor dropped, the GPU set again |
| `Dvfs.ClockManager.RefreshContext` | Source/ryazha-clk/sysmodule/src/mgr/clock_manager.cpp:526-585 | a title or profile change ends with stock clocks and no floor; otherwise the hardware is left alone; the clocks and overrides are noted, and exactly what is new counts as a change |
| `Dvfs.ClockManager.Tick` | Source/ryazha-clk/sysmodule/src/mgr/clock_manager.cpp:759-785 | all intermediate states are safe; the clocks are set exactly when something is new, the configuration was reloaded or the GPU runs at another clock than noted, and then both end at their targets; what stays in every other case |
| `Dvfs.BoostAndLimitSetNothing` | Source/ryazha-clk/sysmodule/src/mgr/clock_manager.cpp:422-440 | boost mode leaves the clocks alone, and a tripped limit only puts the GPU to stock |
| `Dvfs.Run` | Source/ryazha-clk/sysmodule/src/mgr/clock_manager.cpp:759-785 | all intermediate states of every run of ticks, RAM resets by the system and GPU changes by the governor are safe, for every RAM target that snaps to an entry needing no more; and every event has its effect |
| `Dvfs.NamedTargetIsReached` | Source/ryazha-clk/sysmodule/src/mgr/clock_manager.cpp:759-785 | after every run that ends with a tick that sets the clocks, RAM runs at the entry its target names |
| `Dvfs.UnnamedTargets` | Source/ryazha-clk/sysmodule/src/mgr/clock_manager.cpp:489-522 | between the same entries one target snaps up to an entry that needs more than it, another down to one that does not |
| `Dvfs.FailedRaiseIsUnsafe` | Source/ryazha-clk/sysmodule/src/mgr/clock_manager.cpp:489-522 | without a successful raise a RAM clock is safe exactly up to 1600 MHz |
| `IpcWriter.IpcCommand.AddSendBuffer` | Source/ryazha-clk/common/include/ipc.h:128-141 | writes the next slot; filled in order, the command grows by this buffer and loses nothing |
| `IpcWriter.IpcCommand.AddRecvBuffer` | Source/ryazha-clk/common/include/ipc.h:143-156 | as above, for receive buffers before any exchange buffer |
| `IpcWriter.IpcCommand.AddExchBuffer` | Source/ryazha-clk/common/include/ipc.h:158-171 | as above, for exchange buffers |
| `IpcWriter.IpcCommand.AddSendStatic` | Source/ryazha-clk/common/include/ipc.h:173-186 | as above, for statics sent before any received |
| `IpcWriter.IpcCommand.AddRecvStatic` | Source/ryazha-clk/common/include/ipc.h:188-202 | as above, for received statics |
| `IpcWriter.IpcCommand.AddSendSmart` | Source/ryazha-clk/common/include/ipc.h:204-220 | exactly one of static and buffer carries the data |
| `IpcWriter.IpcCommand.AddRecvSmart` | Source/ryazha-clk/common/include/ipc.h:222-234 | exactly one of static and buffer receives the data |
| `IpcWriter.IpcCommand.SendHandleCopy` | Source/ryazha-clk/common/include/ipc.h:246-254 | copied handles come before moved ones |
| `IpcWriter.IpcCommand.SendHandleMove` | Source/ryazha-clk/common/include/ipc.h:256-264 | moved handles follow the copied ones |
| `IpcWriter.PrepareHeader` | Source/ryazha-clk/common/include/ipc.h:266-344 | the message on the wire holds every field of the command at its place, nothing beyond its end changes, and the raw pointer is 16-byte aligned |
| `IpcWriter.PutReceiveList` | Source/ryazha-clk/common/include/ipc.h:313-341 | the receive lengths and addresses stand behind the raw data |
| `IpcWriter.ReceiveListMeans` | Source/ryazha-clk/common/include/ipc.h:321-341 | the halfword of an output static is its size, or 0 above 0xFFFF; its entry gives size and address back |
| `IpcWire.RawBeforeLengths` | Source/ryazha-clk/common/include/ipc.h:309-314 | the aligned raw area ends before the receive-length list |
| `IpcWire.Layout` | Source/ryazha-clk/common/include/ipc.h:266-344 | where each part of a message begins, in bytes; the size field counts everything from the raw data to the receive entries |
| `IpcWire.Ctrl0RoundTrips` | Source/ryazha-clk/common/include/ipc.h:266-290 | the counts of the first control word can be read back |
| `IpcWire.Ctrl1RoundTrips` | Source/ryazha-clk/common/include/ipc.h:266-290 | so can raw size, receive count and the special bit of the second |
| `IpcWire.Ctrl2RoundTrips` | Source/ryazha-clk/common/include/ipc.h:266-290 | and pid and handle counts of the third |
| `IpcWire.StaticRoundTrips` | Source/ryazha-clk/common/include/ipc.h:294-301 | index, size and 40-bit address of a static survive its packing |
| `IpcWire.StaticFields` | Source/ryazha-clk/common/include/ipc.h:294-301 | index, size and high address bits by their position in the packed word |
| `IpcWire.BufferRoundTrips` | Source/ryazha-clk/common/include/ipc.h:303-310 | type, size and 40-bit address of a buffer survive its packing |
| `IpcWire.BufferFields` | Source/ryazha-clk/common/include/ipc.h:303-310 | type and high address bits by their position in the packed word |
| `IpcWire.ReceiveRoundTrips` | Source/ryazha-clk/common/include/ipc.h:332-341 | 48 address bits and 16 size bits survive the packing of a receive entry |
| `IpcParser.Parse` | Source/ryazha-clk/common/include/ipc.h:405-498 | reads exactly the handles, statics, buffers and directions the control words announce |
| `IpcParser.PidHalves` | Source/ryazha-clk/common/include/ipc.h:425-429 | the low word of the PID comes first |
| `IpcParser.RoundTrip` | Source/ryazha-clk/common/include/ipc.h:405-498 | parsing a prepared message recovers handles, statics, buffers, directions, the number of receive statics, raw size and the same raw pointer |
| `IpcParser.AnnouncedRoundTrip` | Source/ryazha-clk/common/include/ipc.h:405-498 | the same for any message whose announced counts are the command's |
| `IpcParser.SmallMessages` | Source/ryazha-clk/common/include/ipc.h:309-330 | a message that fits the buffer keeps its size in the size field |
| `IpcDomain.PrepareHeaderForDomain` | Source/ryazha-clk/common/include/ipc.h:652-666 | the plain message, the domain header at its raw pointer and the object ids behind the payload are all on the wire |
| `IpcDomain.HeaderBytes` | Source/ryazha-clk/common/include/ipc.h:652-666 | the domain header byte by byte, and where each object id stands |
| `IpcDomain.ParseDomainRequest` | Source/ryazha-clk/common/include/ipc.h:673-703 | what a domain request yields, with both error cases |
| `IpcDomain.DomainRoundTrip` | Source/ryazha-clk/common/include/ipc.h:652-703 | message type, object id, object ids and the payload pointer are recovered |
| `MemTesterLockstep.RunKeepsInv` | Source/MemTesterNX/source/main.c:136-183 | the protocol invariant holds after every interleaving of main and workers |
| `MemTesterLockstep.Lockstep` | Source/MemTesterNX/source/main.c:136-183 | a worker runs a job only in main's round of that job; no two workers run different jobs |
| `MemTesterLockstep.OkMeansAllPassed` | Source/MemTesterNX/source/main.c:423-490 | each job runs once per worker and loop, and a round announced as ok means that every worker's job returned 0 |
| `MemTesterLockstep.JobsGoRound` | Source/MemTesterNX/source/main.c:421-470 | round r hands out job r mod (k + 1) - 1: the address test, then the k tests in order |
| `MemTesterLockstep.LoopRunsEveryTest` | Source/MemTesterNX/source/main.c:136-183 | in every completed loop every worker ran the address test and each of the k tests exactly once, in order, and all returned 0 |
| `MemTesterLockstep.ReadyBetweenLoops` | Source/MemTesterNX/source/main.c:421-470 | main sets READY only between loops and polls with the job of the round in every cell |
| `MemTesterLockstep.FailureIsReal` | Source/MemTesterNX/source/main.c:423-490 | main stops only after some worker's test has failed |
| `MemTesterLockstep.Progress` | Source/MemTesterNX/source/main.c:136-183 | in every reachable state in which main has not failed, the initial one included, some step changes something exactly when main and workers have not stalled |
| `MemTesterLockstep.StallMeansMissed` | Source/MemTesterNX/source/main.c:136-183 | a stall happens in the first round only, and the polled worker then still waits for the ready phase that main has overwritten |
| `MemTesterLockstep.RoundsEnd` | Source/MemTesterNX/source/main.c:423-490 | every effective step uses up a budget that only a new round renews |
| `MemTesterLockstep.MissedReadyDeadlocks` | Source/MemTesterNX/source/main.c:421-440 | for any number of workers and tests, every worker can miss the ready phase |
| `MemTesterLockstep.MissedForEver` | Source/MemTesterNX/source/main.c:421-460 | a worker that misses it waits through every continuation, and main never leaves the first round |
| `MemTesterLockstep.LaterRoundsHaveAll` | Source/MemTesterNX/source/main.c:136-183 | in every run that gets beyond the first round all workers have seen it |
| `MemTesterLockstep.EmptyListBreaksLockstep` | Source/MemTesterNX/source/main.c:136-183 | without any test in the list a worker runs the address test twice in one round |
| `StartBarrier.RunKeepsInv` | Source/TinyMemBenchNX/source/main.c:76-131 | the barrier invariant holds after every interleaving, with spurious wake-ups |
| `StartBarrier.NoEarlyCall` | Source/TinyMemBenchNX/source/main.c:76-102 | no worker calls its function before main filled its data in this round and set the ready flag; one call a round |
| `StartBarrier.InitWaitsForAll` | Source/TinyMemBenchNX/source/main.c:104-131 | parallel_init returns only after all workers have checked in |
| `StartBarrier.MutualExclusion` | Source/TinyMemBenchNX/source/main.c:76-131 | at most one thread is inside the mutex |
| `StartBarrier.NoDeadlock` | Source/TinyMemBenchNX/source/main.c:76-131 | no lost wake-up: without relying on spurious ones some step is always possible |
| `StartBarrier.RoundsEnd` | Source/TinyMemBenchNX/source/main.c:441-453 | every real step starts the next round or uses up a non-negative budget |
| `ConfigText.DecRoundTrip` | Source/ryazha-clk/sysmodule/src/file/config.cpp:281-283 | a printed value parses back, in base 10 and in the base strtoul chooses |
| `ConfigText.HexRoundTrip` | Source/ryazha-clk/sysmodule/src/file/config.cpp:261-262 | a printed title id has 16 digits and parses back |
| `ConfigText.LargeParses` | Source/ryazha-clk/sysmodule/src/file/config.cpp:101-169 | a number beyond 64 bits parses to the largest one; a plus sign changes nothing |
| `ConfigText.NegativeParses` | Source/ryazha-clk/sysmodule/src/file/config.cpp:101-169 | a minus sign negates modulo 2^64 |
| `ConfigText.PrefixedHexParses` | Source/ryazha-clk/sysmodule/src/file/config.cpp:101-169 | 0x and 0X make a value or a section name hexadecimal in base 0 and 16 |
| `ConfigFile.KeysUnambiguous` | Source/ryazha-clk/sysmodule/src/file/config.cpp:121-147 | a key names at most one profile and module although profile names are prefixes of each other |
| `ConfigFile.PutDecidesClocks` | Source/ryazha-clk/sysmodule/src/file/config.cpp:300-302 | replacing a title's section decides its clocks, up to what other sections say about it, and no other title's |
| `ConfigFile.LineMeans` | Source/ryazha-clk/sysmodule/src/file/config.cpp:101-169 | a line gives a clock exactly when its section is a 16-digit nonzero title id, its key names the clock and its value is nonzero in 32 bits |
| `ConfigFile.PutDecidesCount` | Source/ryazha-clk/sysmodule/src/file/config.cpp:300-302 | the same for the number of clocks |
| `ConfigFile.PutKeepsValues` | Source/ryazha-clk/sysmodule/src/file/config.cpp:300-302 | a title's section has no influence on config values |
| `ConfigFile.PutValuesKeepsClocks` | Source/ryazha-clk/sysmodule/src/file/config.cpp:394-396 | the value section has no influence on the clocks of titles |
| `ConfigFile.PutValuesKeepsCount` | Source/ryazha-clk/sysmodule/src/file/config.cpp:394-396 | nor on their number |
| `ConfigFile.PutDecidesValues` | Source/ryazha-clk/sysmodule/src/file/config.cpp:394-396 | the value section alone decides the config values |
| `ConfigFile.CanonicalSaysNothingElse` | Source/ryazha-clk/sysmodule/src/file/config.cpp:257-262 | a file whose title sections are named as the program prints them says nothing about a title elsewhere |
| `ConfigStore.ParseKey` | Source/ryazha-clk/sysmodule/src/file/config.cpp:121-147 | finds the clock a key names, or none exactly when it names none |
| `ConfigStore.OneClock` | Source/ryazha-clk/sysmodule/src/file/config.cpp:101-169 | a line says something about one clock of one title at most |
| `ConfigStore.Store.BrowseLine` | Source/ryazha-clk/sysmodule/src/file/config.cpp:101-169 | one line updates exactly the clock, count or value it speaks about |
| `ConfigStore.Store.Load` | Source/ryazha-clk/sysmodule/src/file/config.cpp:171-192 | memory is what the file says: last accepted clock, number of accepted lines, checked values |
| `ConfigStore.CollectLines` | Source/ryazha-clk/sysmodule/src/file/config.cpp:264-288 | the lines written are the nonzero clocks in order, and their number |
| `ConfigStore.WrittenClock` | Source/ryazha-clk/sysmodule/src/file/config.cpp:264-302 | what is written for a title reads back clock by clock |
| `ConfigStore.WrittenCount` | Source/ryazha-clk/sysmodule/src/file/config.cpp:264-302 | and is counted as often as it has nonzero clocks |
| `ConfigStore.WrittenValueOf` | Source/ryazha-clk/sysmodule/src/file/config.cpp:368-396 | a value reads back as itself if valid, else as the default |
| `ConfigStore.Store.StoreClocks` | Source/ryazha-clk/sysmodule/src/file/config.cpp:304-317 | memory gets the title's clocks and keeps all others |
| `ConfigStore.Store.SetProfiles` | Source/ryazha-clk/sysmodule/src/file/config.cpp:257-320 | memory and file stay in agreement exactly for settable titles; a failed write or a deferred update changes no memory |
| `ConfigStore.SetReflects` | Source/ryazha-clk/sysmodule/src/file/config.cpp:257-320 | the equivalence behind it, store by store |
| `ConfigStore.CanonicalIsSettable` | Source/ryazha-clk/sysmodule/src/file/config.cpp:257-320 | in a file the program wrote every title but zero is settable |
| `ConfigStore.Store.SetConfigValues` | Source/ryazha-clk/sysmodule/src/file/config.cpp:368-409 | memory and file stay in agreement, with invalid values replaced by defaults in both |
| `ConfigStore.ValuesSetReflects` | Source/ryazha-clk/sysmodule/src/file/config.cpp:368-409 | the agreement behind it, store by store |
| `ConfigStore.Store.FindClockMhz` | Source/ryazha-clk/sysmodule/src/file/config.cpp:76-84 | answers what the file says |
| `ConfigStore.Store.GetProfileCount` | Source/ryazha-clk/sysmodule/src/file/config.cpp:322-328 | answers how many clocks the file gives the title |
| `ConfigStore.Store.FindClockHzFromProfiles` | Source/ryazha-clk/sysmodule/src/file/config.cpp:86-99 | the first profile of the list that the file sets decides |
| `ConfigStore.Store.GetAutoClockHz` | Source/ryazha-clk/sysmodule/src/file/config.cpp:230-246 | the fallback order of the profiles over the file's clocks |
| `ConfigStore.FallbackOrder` | Source/ryazha-clk/sysmodule/src/file/config.cpp:230-246 | the order written out: charging and USB try USB, charging, handheld; official charging tries itself, charging, handheld; the others themselves |
| `ConfigStore.Run` | Source/ryazha-clk/sysmodule/src/file/config.cpp:171-409 | over every sequence of loads and immediate updates of titles and values, written or not, each has its effect on the file and memory keeps answering as a fresh load of the file would |
| `ConfigStore.SetClocksReadBack` | Source/ryazha-clk/sysmodule/src/file/config.cpp:257-320 | after a written update the file gives the title exactly these clocks, zeros included, and as many lines as nonzero clocks; other titles keep theirs |
| `KipTable.KipFile.FindOffset` | Source/ryazha-clk/sysmodule/src/file/kip.hpp:110-129 | finds the first magic word at any position of a file of any length, and fails exactly when there is none |
| `KipTable.KipFile.ReadTable` | Source/ryazha-clk/sysmodule/src/file/kip.hpp:131-154 | yields the table at the first magic word, exactly when one fits there |
| `KipTable.KipFile.WriteTable` | Source/ryazha-clk/sysmodule/src/file/kip.hpp:156-180 | replaces exactly the bytes of that table, or nothing |
| `KipTable.StaysLocated` | Source/ryazha-clk/sysmodule/src/file/kip.hpp:156-180 | writing a table with the magic word creates no earlier occurrence |
| `KipTable.WriteThenRead` | Source/ryazha-clk/sysmodule/src/file/kip.hpp:131-180 | a written table reads back at the same offset exactly when it starts with the magic word; all other bytes and the size stay |
| `KipTable.KipFile.SetField` | Source/ryazha-clk/sysmodule/src/file/kip.hpp:191-197 | only one word of the table changes |
| `KipTable.FieldSetThenRead` | Source/ryazha-clk/sysmodule/src/file/kip.hpp:191-197 | the field has its value, all other fields and bytes are kept, the table stays where it is |
| `KipTable.FieldBytes` | Source/ryazha-clk/sysmodule/src/file/kip.hpp:191-197 | the four bytes of the field stand in the file with the low byte first |
| `KipTable.KipFile.SetEristaGpuVolt` | Source/ryazha-clk/sysmodule/src/file/kip.hpp:259-265 | succeeds exactly for an index 0..26 and a table that fits; then only that entry changes, else nothing |
| `KipTable.KipFile.SetMarikoGpuVolt` | Source/ryazha-clk/sysmodule/src/file/kip.hpp:267-273 | succeeds exactly for an index 0..23 and a table that fits; then only that entry changes, else nothing |
| `GfxLine.Context.DrawLine` | Source/fatal_handler_payload/fatal_handler/gfx/gfx.c:491-514 | terminates for all end points and plots the pixels of the ideal line in order, each once |
| `GfxLine.EndPoints` | Source/fatal_handler_payload/fatal_handler/gfx/gfx.c:491-514 | max(dx,dy)+1 pixels from the first end point exactly to the second |
| `GfxLine.KingMoves` | Source/fatal_handler_payload/fatal_handler/gfx/gfx.c:491-514 | each pixel is a king move from the one before |
| `GfxLine.HalfPixel` | Source/fatal_handler_payload/fatal_handler/gfx/gfx.c:491-514 | each pixel lies within half a pixel of the true line |
| `GfxLine.Step` | Source/fatal_handler_payload/fatal_handler/gfx/gfx.c:503-513 | the error term stays between -dy and dx and decides the next pixel |
| `GfxLine.Inside` | Source/fatal_handler_payload/fatal_handler/gfx/gfx.c:486-514 | a line between visible points stays on the screen |
| `GfxLine.ColoursItsPixels` | Source/fatal_handler_payload/fatal_handler/gfx/gfx.c:486-489 | exactly the cells of the plotted pixels change |
| `GfxLine.CellsOfVisible` | Source/fatal_handler_payload/fatal_handler/gfx/gfx.c:486-489 | visible points have cells of their own, row by row |
| `DisplayRefreshRate.Normalise` | Source/ryazha-clk/sysmodule/src/display/display_refresh_rate.cpp:320-341 | the loops compute the normalised rate |
| `DisplayRefreshRate.NormalFitsPanel` | Source/ryazha-clk/sysmodule/src/display/display_refresh_rate.cpp:320-341 | every request becomes a rate of 40..80: itself if possible, 60 for its divisors, else the least multiple by 2 to 4, else 60; normalising is idempotent |
| `DisplayRefreshRate.ClockRegisters.SetHandheldRate` | Source/ryazha-clk/sysmodule/src/display/display_refresh_rate.cpp:285-360 | refuses in the docked state, else keeps registers it believes right or programs the normalised rate |
| `DisplayRefreshRate.DividerFits` | Source/ryazha-clk/sysmodule/src/display/display_refresh_rate.cpp:350-356 | the divider and fraction of every panel rate fit their 8 and 16 bit fields and are exact |
| `DisplayRefreshRate.ReadsBack` | Source/ryazha-clk/sysmodule/src/display/display_refresh_rate.cpp:685-723 | a programmed rate gives exactly its pixel clock and is read by GetRate exactly; 80 and only 80 is taken for docked, where GetRate reads no handheld rate |
| `DisplayRefreshRate.SentinelMeans` | Source/ryazha-clk/sysmodule/src/display/display_refresh_rate.cpp:285-318 | a PLL counts as docked exactly when its divider is below 1 or is that of 80 Hz |
| `DisplayRefreshRate.RateNowOfProgrammed` | Source/ryazha-clk/sysmodule/src/display/display_refresh_rate.cpp:343-348 | the setter's 32-bit reading is right up to 68 Hz and out of range above |
| `DisplayRefreshRate.StepProgramsRequest` | Source/ryazha-clk/sysmodule/src/display/display_refresh_rate.cpp:285-360 | from any programmed rate below 80 each request is met exactly |
| `DisplayRefreshRate.RunReadsBack` | Source/ryazha-clk/sysmodule/src/display/display_refresh_rate.cpp:285-360 | over every run GetRate reads the last request normalised; 80 is final and read as the docked state |
| `DisplayRefreshRate.Serve` | Source/ryazha-clk/sysmodule/src/display/display_refresh_rate.cpp:285-360 | calling the setter for one request after another makes such a run |
| `DockedRefreshRate.WantedRate` | Source/ryazha-clk/sysmodule/src/display/display_refresh_rate.cpp:402-437 | 60 for its divisors, else the lowest listed multiple, else 60 or the next rate above |
| `DockedRefreshRate.ChooseRate` | Source/ryazha-clk/sysmodule/src/display/display_refresh_rate.cpp:402-447 | the wanted rate, lowered to the highest listed one the display allows |
| `DockedRefreshRate.ChoiceIsAllowed` | Source/ryazha-clk/sysmodule/src/display/display_refresh_rate.cpp:402-447 | at most the highest allowed, never above the wanted rate, equal to the request when that is listed and allowed |
| `DockedRefreshRate.DockedDisplay.SetRate` | Source/ryazha-clk/sysmodule/src/display/display_refresh_rate.cpp:362-487 | the mode submitted, in the 32-bit arithmetic of the source, and all cases in which nothing changes |
| `DockedRefreshRate.Reads720` | Source/ryazha-clk/sysmodule/src/display/display_refresh_rate.cpp:455-457 | the kHz floor and the added 999 recover the rate exactly when the frame is longer than the rounding error, so always above 999 pixels |
| `DockedRefreshRate.Reads1080` | Source/ryazha-clk/sysmodule/src/display/display_refresh_rate.cpp:74-104 | each listed 1080p timing reads back its listed rate |
| `DockedRefreshRate.DockedReadsBack` | Source/ryazha-clk/sysmodule/src/display/display_refresh_rate.cpp:362-487 | what is programmed at 1080p, or at 720p with more than 999 pixels a frame, is what is read back |
| `DockedRefreshRate.SubmittedMode` | Source/ryazha-clk/sysmodule/src/display/display_refresh_rate.cpp:449-478 | field by field the mode submitted for a rate; at 720p only the clock changes |
| `DockedRefreshRate.SupportedModes` | Source/ryazha-clk/sysmodule/src/display/display_refresh_rate.cpp:362-400 | the modes with a settable rate are 480p, 720p and 1080p |
| `DockedRefreshRate.AcceptedReadsBack` | Source/ryazha-clk/sysmodule/src/display/display_refresh_rate.cpp:362-487 | after an accepted call the display reads the chosen rate, whether the mode had to change or not |
| `RegisterBitmap.SetRegisterTableAllowed` | Source/Atmosphere-Patches/secmon_smc_register_access.cpp:24-50 | adds exactly this register to those the table holds, as one bit, under the order checks of the source |
| `RegisterBitmap.OrderChecksMeanAbove` | Source/Atmosphere-Patches/secmon_smc_register_access.cpp:31-49 | the order checks hold exactly when the register lies above all earlier ones |
| `RegisterBitmap.OrderChecksMeanAscending` | Source/Atmosphere-Patches/secmon_smc_register_access.cpp:31-49 | a list passes all its checks exactly when it is strictly ascending |
| `RegisterBitmap.RawTableHas` | Source/Atmosphere-Patches/secmon_smc_register_access.cpp:24-50 | the raw table holds exactly the listed registers |
| `RegisterBitmap.LowestBitFirst` | Source/Atmosphere-Patches/secmon_smc_register_access.cpp:24-50 | register 0 of a byte is its lowest bit and each next one a bit higher |
| `RegisterBitmap.GetReducedAccessTableInfo` | Source/Atmosphere-Patches/secmon_smc_register_access.cpp:52-68 | the bounds enclose every non-zero byte and both ends are non-zero |
| `RegisterBitmap.MakeAccessTable` | Source/Atmosphere-Patches/secmon_smc_register_access.cpp:71-89 | the table holds those bytes at the shifted base address |
| `RegisterBitmap.TrimmedRefinesRaw` | Source/Atmosphere-Patches/secmon_smc_register_access.cpp:116-138 | the trimmed table accepts an address exactly when the raw one has its register, unless the region ends at 4 GiB |
| `RegisterBitmap.OnlyListedRegisters` | Source/Atmosphere-Patches/secmon_smc_register_access.cpp:24-138 | an aligned address is accepted exactly when its register was listed |
| `RegisterBitmap.TrimsToList` | Source/Atmosphere-Patches/secmon_smc_register_access.cpp:52-68 | the trimmed table spans from the lowest to the highest listed register |
| `RegisterBitmap.GetAccessTableEntry` | Source/Atmosphere-Patches/secmon_smc_register_access.cpp:140-148 | the first table that allows the address, or none exactly when none does |
| `BlockCopy.AlignedBlockCopy` | Source/TinyMemBenchNX/source/main.c:145-170 | a plain copy of the whole blocks |
| `BlockCopy.AlignedBlockCopyBackwards` | Source/TinyMemBenchNX/source/main.c:172-199 | the whole blocks at the end of the size, whatever the order |
| `BlockCopy.AlignedBlockCopyBackwards32` | Source/TinyMemBenchNX/source/main.c:201-230 | the same with the halves of each block swapped in order |
| `BlockCopy.AlignedBlockCopyBackwards64` | Source/TinyMemBenchNX/source/main.c:232-261 | the same with ascending order inside each block |
| `BlockCopy.CopiesAgree` | Source/TinyMemBenchNX/source/main.c:145-261 | for sizes divisible by 64 all four are one plain copy |
| `BlockCopy.AlignedBlockFill` | Source/TinyMemBenchNX/source/main.c:338-355 | a plain fill |
| `BlockCopy.AlignedBlockFillShuffle16` | Source/TinyMemBenchNX/source/main.c:357-375 | the same fill |
| `BlockCopy.AlignedBlockFillShuffle32` | Source/TinyMemBenchNX/source/main.c:377-395 | the same fill |
| `BlockCopy.AlignedBlockFillShuffle64` | Source/TinyMemBenchNX/source/main.c:397-415 | the same fill |
| `BlockCopy.AlignUpBits` | Source/TinyMemBenchNX/source/main.c:140-143 | for the alignment 0x100000 the bit form gives the least aligned address that is not below the pointer |
| `BlockCopy.Patterns` | Source/TinyMemBenchNX/source/main.c:604-649 | the four masked offset patterns |
| `BlockCopy.Carve` | Source/TinyMemBenchNX/source/main.c:629-648 | one buffer behind the pointer, the next pointer aligned and behind the buffer |
| `BlockCopy.AllocFourNonaliasedBuffers` | Source/TinyMemBenchNX/source/main.c:604-649 | for all sizes and any subset of outputs the buffers are inside the pool, pairwise disjoint and at four different offsets |
| `MemoryTests.AliasedRegion.TestStuckAddress` | Source/MemTesterNX/source/tests.c:69-102 | returns 0 exactly when no two words share a cell, given at least one round |
| `MemoryTests.AliasedRegion.Write` | Source/MemTesterNX/source/tests.c:79-85 | after the writing pass the last word of each cell has left its pattern |
| `MemoryTests.PatternTellsWords` | Source/MemTesterNX/source/tests.c:82-90 | an address and a complement of another address never coincide |
| `MemoryTests.PatternAlternates` | Source/MemTesterNX/source/tests.c:79-90 | a word gets its address in one round and the complement in the next, neighbours the other way round |
| `MemoryTests.Halves.CompareRegions` | Source/MemTesterNX/source/tests.c:47-67 | returns 0 exactly when the halves are equal |
| `MemoryTests.Halves.TestSolidBits` | Source/MemTesterNX/source/tests.c:260-285 | returns 0 exactly when every word reads the same in both halves in every round, whatever it held before |
| `MemoryTests.SolidBitsFindsDifferences` | Source/MemTesterNX/source/tests.c:260-285 | with two rounds that means that both halves have the same stuck bits |
| `MemoryTests.StuckBitIsFound` | Source/MemTesterNX/source/tests.c:260-285 | a stuck bit in one word of either half is found |
| `MemoryTests.Halves.TestModify` | Source/MemTesterNX/source/tests.c:167-246 | each word goes through the operation once, then the halves are compared |
| `MemoryTests.TestBitwise` | Source/MemTesterNX/source/tests.c:167-246 | xor, or and and on halves that read equal before: returns 0 exactly when both halves miss the same bits of the operation in every word |
| `MemoryTests.OperationTells` | Source/MemTesterNX/source/tests.c:167-246 | two faulty words that hold a value alike differ afterwards exactly when they miss different bits |

## Left out

- File handles, NCA mounting, signatures, hashes, embedded and IPS patches, permissions and svc calls of the loader; a segment whose hash does not match counts as unreadable.
- LZ4 and Zstd internals: decompression is a function of its input that may scribble anywhere between the segment base and the end of its window.
- The contents written into the argument area: its structure is not part of this model. The ASLR windows and the argument buffer size are parameters.
- The loaders under Source/Old-Atmosphere-Patches, which repeat the one modelled here.
- Hardware access, sensors, battery, fan, I2C, notifications, logs and CSV output; firmware below 9.0.0; what makes the governor threads set the GPU clock (`Dvfs.Run` admits any such change), and the CPU and display parts of SetClocks.
- HOS changing RAM to a non-stock clock, failed PCV writes during a run (`Dvfs.FailedRaiseIsUnsafe` says what they would cost), a bracket or offset that changes during a run, and other DVFS modes than hijack.
- 32-bit overflow of coordinate differences in gfx_line and of the size sum in alloc_four_nonaliased_buffers, both undefined in C.
- `BlockCopy.AlignUpBits`: is about the one alignment the program uses, 0x100000.
- IPC dispatch, session control and responses; the kernel's own use of the message. Adders called out of order overwrite slots and are described, not forbidden, by the contracts of the adders.
- Memory ordering: the two protocols are stepped with sequential consistency, and one source-level access is one step.
- Thread creation that fails, and the timing of benchmarks.
- The INI reader and writer: a file is its list of lines, replacing a section removes its lines and appends the new ones, and quoting, trimming and letter case of section names are not modelled. A missing file is an empty one. SetConfigValue and ResetConfigValue depend on how the writer treats a section with one key.
- Names, validity and defaults of the 136 config values: parameters, with distinct names.
- `KipTable.KipFile.Write`: assumes that a write inside the file succeeds completely.
- `DockedRefreshRate.DockedDisplay.SetRate`: assumes a frame whose 32-bit product is not zero, by which the source divides; 480p timings, the RETRO panel table and the mode bits other than timings are not modelled.
- `DockedRefreshRate.DockedReadsBack`: at 720p is about frames above 999 pixels for which no 32-bit product wraps at 240 Hz; `DockedRefreshRate.Reads720` says what shorter frames read.
- The clock of GetRate before any handheld rate was programmed, and the OLED gamma correction.
- SMC virtual addresses and the register access itself: the access tables of the .inc files are not part of this model.
- `MemoryTests.Halves.TestModify`: takes the operation as a function; for sub, mul and div no detection result is stated, because it depends on the random operand and carries.
- Bit-spread, walking-bit, checkerboard, block-sequential and 8/16-bit tests, fonts, console drawing, overlay and scripts.
