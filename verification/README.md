# Verified models of the Bochs UWP port's core algorithms

A Dafny 4.11 project that models the state-changing core of this Bochs port and proves what it is
meant to guarantee. `dafny verify dfyconfig.toml` checks everything.

* **Timers** (`TimerTable`, `Scheduler`, `TimerEngine`, `PcSystem`, `TimerTheorems`, `Punctuality`,
  `Snapshot`). `bx_pc_system_c`
  keeps absolute 64-bit due times but runs on one 32-bit countdown that is re-based by every
  registration, activation and event. `Scheduler` is the specification: it has no countdown, looks at
  every tick, and calls in slot order whatever was due when the tick began. `TimerEngine` is the code's
  arithmetic as functions, `PcSystem` the class whose methods compute those functions in place, and
  `TimerTheorems` states what holds over every run, `Punctuality` when a continuous or a
  one-shot timer is called, wherever it is started, and what a deactivation stops, and `Snapshot` which callbacks a tick calls. A callback is an arbitrary function of the whole
  history of calls, the call being made included, to a list of requests, so it may register, activate,
  deactivate or unregister any timer, and may have state of its own.
* **Sequential time** (`SequentialTime`). The microsecond clock that never answers the same value twice.
* **Frame bridge** (`FrameBridge`, `BridgeHost`, `FrameMirror`, `FrameTexture`, `FrameRenderer`). The
  producer draws clipped rectangles, the one persistent consumer copies the accumulated dirty box.
  `BridgeHost` has the row loops that overwrite rows of the pixel vectors, `FrameMirror` the cache-agreement
  theorem over runs and what a copy reports. `FrameTexture` goes on to the renderer's texture, of which only
  the reported box is uploaded, and `FrameRenderer` is the class that does so. What a fresh texture holds is
  arbitrary, and so is the size, at most 16384 each way, chosen for a frame beyond the device's limit.
* **Queues** (`TailQueue`, `SimpleQueue`). The pointer macros on a heap of nodes. An address of a pointer
  is a location: the head's first pointer, or the next pointer of a node.
* **Handshake** (`Handshake`). The pause, resume and shutdown flags shared by the emulator thread and any
  number of controllers, as an interleaving of critical sections and wake-ups, and as methods on the
  flags.
* **CRC** (`Crc32`). The table-driven checksum against bit-serial polynomial division.
* **BIOS** (`Bits`, `PciAllocator`, `OptionRom`, `Ssdt`, `Smbios`). Placement of base address registers,
  shadowing of option ROMs, the AML table of processors with a reader for it, and the SMBIOS entry point
  and memory structures.
* **Capture buffer** (`CaptureFifo`). The capped microphone queue with lazy compaction as a FIFO with a
  history.

`Arith`, `Bytes`, `Links`, `Options` and `Sequences` are shared. Machine widths are written out (`U32`,
`U64`, remainders); where nothing wraps, that is proved from the invariant rather than assumed. Where a
class mirrors source state, every method's postcondition gives the whole new state by a function, and the
theorems are about that function.

Assumptions a caller has to meet are the preconditions of the theorems: the end of a run plus the largest
number of ticks requested in it, by a device or by a callback it calls and no less than the null timer's
2^32 - 1, stays below 2^64 - 1, so that no due time reaches that value (`TimerTheorems.CanRun`); the last
time read plus the number of readings is a 64-bit word (`SequentialTime`); every geometry the bridge
accepts has fewer than 2^32 pixels (`FrameMirror`; the 32-bit allocation is big enough exactly then,
`FrameBridge.ConfiguredIsSized`); I/O and 32-bit memory registers report powers of two (`PciAllocator`); a
`size_t` has 64 bits (`FrameBridge`, `CaptureFifo`); and an element inserted into a queue is not in it
already.

Places where the code and what is said about it differ, and what is proved:

* The due set of a countdown event is fixed before any call, but a slot's function is looked up at its
  turn. So a timer that an earlier callback of the event deactivated is still called
  (`Snapshot.DeactivatedIsStillCalled`), and a fresh timer registered into a slot that was due is called at
  once (`Snapshot.FreshTimerIsCalledAtOnce`). `Snapshot.TickCallsExactlyTheDue` says exactly which calls
  are made, for every behaviour of the callbacks.
* A timer that is deactivated is not called any more, but for one call at that tick if and only if its slot is
  flagged in the snapshot being served with its turn to come and it has a function
  (`Punctuality.DeactivatedIsSilent`).
* A continuous timer started by a callback may be called at its start as well as at the multiples of its
  period (`Snapshot.ActivatedTimerIsCalledAtItsStart`): if and only if its slot is flagged in the snapshot
  being served and its turn is still to come (`Punctuality.ContinuousTimerIsPunctual`).
* `register_timer_ticks` fails exactly when `numTimers` is 64
  (`TimerTheorems.RegistrationIsRefusedWhenFull`), even if a slot below it is free, which can happen
  (`TimerTheorems.FullWithAFreeSlot`). Unregistering then makes room if and only if it empties the last slot
  (`TimerTheorems.OnlyTheLastSlotMakesRoom`).
* The mirror property fails for rows of 2^30 pixels and more, whose byte count wraps around to a smaller
  one: `FrameMirror.EveryCopyIsWhole` holds for geometries satisfying `RowsFit`, and
  `FrameMirror.RowsMustFit` gives for every other geometry a run that leaves the consumer with a stale
  pixel.
* A resume followed by a pause before the emulator thread wakes up leaves it parked on the new pause
  with `g_pauseObserved` false, so no controller is told (`Handshake.FastResumePause`,
  `Handshake.FastResumePauseIsReachable`, `Handshake.UnobservedStaysSo`). `Handshake.ObservedUntilReleased`
  says exactly when this happens.
* `wait_until_paused` answers 1 also when the core is not running or no pause is requested
  (`Handshake.WaitAnswersHonestly`).
* Run entry forgets an earlier shutdown request (`Handshake.PollSeesShutdownSinceEntry`,
  `Handshake.EntryForgetsShutdown`).
* A PCI cursor that runs past its address space wraps around and reuses addresses
  (`PciAllocator.WrappedCursorOverlaps`). The regions of a cursor are well placed and disjoint if and only
  if a running sum over the natural numbers stays within its address space
  (`PciAllocator.AllRegionsAreDisjoint`).
* A root bus that needs more than the area in front of the second bus's can be given the second bus's
  addresses (`PciAllocator.SecondBusOverlaps`); `PciAllocator.BusesAreDisjoint` has the exact condition.
* The code knows no 64-bit memory registers: it takes the upper half of one for 16 ports. With room among
  the ports every such register then decodes at 4 GB or above, not at the address meant for it
  (`PciAllocator.WideRegisterIsMisplaced`).
* SMBIOS ranges are disjoint exactly up to 4 TB (`Smbios.DisjointUpToFourTerabytes`), and so are the handles
  (`Smbios.HandlesDifferUpToFourTerabytes`). That is more than the CMOS can report
  (`Smbios.MemSizeIsDescribable`).
* The renderer's second, forced copy is never made (`FrameTexture.OneCopyIsEnough`).

## Model

| member | source | states |
|---|---|---|
| TimerTheorems.RunRefines | pc_system.cc:322-386 | for every run of requests, tick1 and tickn and every callback behaviour, the engine's call log, slots and clock equal those of the scheduler that looks at every tick, and the invariant holds afterwards |
| TimerTheorems.RunsFromPowerOn | pc_system.cc:61-69 | the same from power-on; time_ticks() equals the ticks given, 0 < currCountdown <= currCountdownPeriod < 2^32, and no active timer is due before the countdown ends |
| TimerTheorems.StepRefines | pc_system.h:106-121 | one request, tick1 or tickn is what the scheduler does |
| Punctuality.ContinuousTimerIsPunctual | pc_system.cc:348-360 | in every run, a timer started with period p at t0, by activation or active registration, by a device or inside any callback, and neither activated again nor deactivated in the rest of that run, is by tick t called exactly floor((t-t0)/p) times, at t0+p, t0+2p, ..., and at t0 too if and only if its slot is flagged in the snapshot being served with its turn to come |
| Punctuality.OneShotIsCalledOnce | pc_system.cc:350-352 | a one-shot timer so started, and neither activated, deactivated nor unregistered in the rest of the run, is by tick t called exactly once, at t0+p, if t is that far, and at t0 in the same case |
| Punctuality.DeactivatedIsSilent | pc_system.cc:563-573 | in every run, a registered timer deactivated at t0, and neither activated nor unregistered in the rest of that run, is by its end called no more than it was, but once at t0 if and only if its slot is flagged in the snapshot being served with its turn to come and has a function |
| Punctuality.EngineFollowsPlan | pc_system.cc:322-386 | the general form: a slot left alone from any moment on is called when its plan says |
| Punctuality.SchedulerFollowsPlan | pc_system.cc:488-506 | the same of the naive scheduler |
| Punctuality.LeftAloneFollowsPlan | pc_system.cc:377-385 | the same from the moment after the request, whatever requests, turns and commands are still to come |
| Punctuality.MomentsLeadToTheEnd | pc_system.cc:377-385 | every run is a sequence of single requests, turns and commands, and each moment of it leads to its end |
| Snapshot.TickCallsExactlyTheDue | pc_system.cc:377-385 | whatever callbacks do, a tick calls in slot order exactly the slots due when it began whose function is there at their turn: the one given by the last request of an earlier callback of the tick that emptied or filled the slot, else the one it had |
| Snapshot.FireMakesTheCalls | pc_system.cc:377-385 | the same of serving a snapshot from any slot on |
| Snapshot.AtTurnHasEffects | pc_system.cc:586-600 | the function of a slot changes only by unregistering it while inactive and by a registration that finds it first free |
| Snapshot.DeactivatedIsStillCalled | pc_system.cc:380-382 | a run in which a deactivated timer is called |
| Snapshot.FreshTimerIsCalledAtOnce | pc_system.cc:380-382 | a run in which a timer registered for 10 ticks later is called at once |
| Snapshot.ActivatedTimerIsCalledAtItsStart | pc_system.cc:494-497 | a run in which a continuous timer is called at the tick it is started |
| TimerTheorems.RegistrationIsRefusedWhenFull | pc_system.cc:274-284 | after every run, a registration is refused, changing nothing, if and only if numTimers is 64 |
| TimerTheorems.FullWithAFreeSlot | pc_system.cc:281-284 | a run after which numTimers is 64 with slot 1 free, and registration is refused |
| TimerTheorems.OnlyTheLastSlotMakesRoom | pc_system.cc:586-600 | once numTimers is 64, unregistering an inactive timer makes a registration succeed, in the first free slot, if and only if it has the last slot |
| TimerEngine.Tick1Refines | pc_system.h:106-110 | one tick of the countdown is one tick of the scheduler and keeps the invariant |
| TimerEngine.Tick1sRefine | pc_system.h:106-110 | so are n ticks |
| TimerEngine.TimeAdvances | pc_system.h:130-133 | time_ticks() advances by exactly the number of ticks |
| TimerEngine.BatchedEvent | pc_system.h:112-117 | setting the countdown to zero and serving the event equals getting there tick by tick |
| TimerEngine.ShortBatch | pc_system.h:118-120 | fewer ticks than the countdown change nothing but the countdown |
| TimerEngine.QuietStep | pc_system.h:107 | a tick that does not end the countdown is one at which the scheduler finds nothing due |
| TimerEngine.NarrowingIsExact | pc_system.cc:63-66 | in every reachable state the countdown is at most 2^32 - 1 and time_ticks() and the 64-bit sums lose nothing |
| TimerEngine.RebasedKeepsInv | pc_system.cc:335-375 | at an event the new countdown is positive, fits 32 bits and overshoots no due time, and the slots are those of the scheduler after its snapshot; so the invariant holds at callback entry |
| TimerEngine.EventRefines | pc_system.cc:322-386 | the event at the end of a countdown does what the scheduler does at that tick |
| TimerEngine.FireRefines | pc_system.cc:377-385 | serving the snapshot, with requests made meanwhile, makes the same calls in both and keeps the invariant |
| TimerEngine.InvokeRefines | pc_system.cc:380-384 | so does one callback |
| TimerEngine.AdvanceIsExact | pc_system.cc:342-368 | the 64-bit advance of a due slot is the unbounded one and leaves nothing due now or earlier |
| TimerEngine.MinTimeToFireIsLeast | pc_system.cc:338-369 | the minimum found is attained and below every active due time |
| TimerEngine.ApplyRefines | pc_system.cc:262-320 | every request does to the slots what the scheduler's does, and keeps the invariant |
| TimerEngine.RegisterRefines | pc_system.cc:292-319 | in particular a registration |
| TimerEngine.ActivateRefines | pc_system.cc:475-506 | in particular an activation |
| TimerEngine.SkewIsExact | pc_system.cc:303-311 | shortening the countdown by the delta loses nothing in 32 bits |
| TimerEngine.InitialInv | pc_system.cc:41-69 | power-on establishes the invariant |
| Scheduler.QuietTick | pc_system.cc:371-386 | a tick at which nothing is due only moves the clock |
| PcSystem.PcSystem.constructor | pc_system.cc:41-69 | power-on state, satisfying the invariant |
| PcSystem.PcSystem.FindSlot | pc_system.cc:275-279 | the first free slot above 0, or numTimers |
| PcSystem.PcSystem.Skew | pc_system.cc:303-311 | shortens countdown and period by the same delta |
| PcSystem.PcSystem.RegisterTimerTicks | pc_system.cc:262-320 | the first free slot is filled and armed, the countdown is shortened if needed, and its id is returned, or -1 without change when numTimers is 64 |
| PcSystem.PcSystem.ActivateTimerTicks | pc_system.cc:475-506 | the slot is armed max(ticks, 1) from now, the countdown is shortened if that is earlier, and nothing else changes |
| PcSystem.PcSystem.DeactivateTimer | pc_system.cc:563-573 | only the slot's active flag changes |
| PcSystem.PcSystem.UnregisterTimer | pc_system.cc:575-603 | an inactive slot is emptied and the last one dropped from the scanned slots; on an active one failure without change |
| PcSystem.PcSystem.ServeSlot | pc_system.cc:340-369 | one slot: flagged if and only if active and due, then switched off or moved on by its period, and the minimum lowered to it if active |
| PcSystem.PcSystem.ServeDue | pc_system.cc:340-369 | the first loop computes exactly the due set, the advanced slots and the least due time, and first..last encloses the due set |
| PcSystem.PcSystem.Rebase | pc_system.cc:324-375 | countdownEvent() up to its first call leaves the invariant in force |
| PcSystem.PcSystem.CallHandler | pc_system.cc:380-384 | a callback entered with the invariant in force; its call is logged and its requests are made |
| PcSystem.PcSystem.CallDue | pc_system.cc:377-385 | the second loop, restricted to first..last, makes every call of the snapshot |
| PcSystem.PcSystem.CountdownEvent | pc_system.cc:322-386 | both loops together do what the event of the functional engine does, in all fields and the call log, and re-establish the invariant |
| PcSystem.PcSystem.Tick1 | pc_system.h:106-110 | refines one tick of the scheduler |
| PcSystem.PcSystem.RunBatch | pc_system.h:111-121 | the loop terminates though callbacks shorten the countdown, and its result is that of n calls of tick1() |
| PcSystem.PcSystem.Tickn | pc_system.h:111-121 | final state and call log equal those of n calls of tick1(), and of n ticks of the scheduler |
| SequentialTime.NextAnswer | pc_system.cc:446-460 | an answer is the larger of the previous one and the time, plus one |
| SequentialTime.GrowsUnlessTheClockGoesBack | pc_system.cc:449-457 | answers grow if and only if the clock did not go back |
| SequentialTime.AnswersAreSequential | pc_system.cc:446-460 | the same of every answer in a run, from initialize() or any later state |
| SequentialTime.SequentialIncrease | pc_system.cc:446-460 | such answers strictly increase |
| SequentialTime.AnswersIncrease | pc_system.cc:446-460 | over every run of a clock that never goes back, answers strictly increase and stay ahead of it |
| SequentialTime.UsecClock.TimeUsecSequential | pc_system.cc:446-460 | fields and answer are those of one reading, wrap-around included |
| FrameMirror.EveryCopyIsWhole | UWP-Port/BochsUwpBridge.cpp:170-238 | after every sequence of configure, update, clear and copies into one target, a copy of a valid frame leaves the target with the frame's geometry and every pixel |
| FrameMirror.RunKeepsMirror | UWP-Port/BochsUwpBridge.cpp:170-238 | every run keeps: outside the dirty box the target already agrees with the frame |
| FrameMirror.StepKeepsMirror | UWP-Port/BochsUwpBridge.cpp:76-143 | so does every entry point |
| FrameMirror.CopyIsWhole | UWP-Port/BochsUwpBridge.cpp:193-229 | copying the box into an agreeing target makes it equal |
| FrameMirror.UpdateKeepsMirror | UWP-Port/BochsUwpBridge.cpp:90-119 | an update changes only pixels inside the accumulated box |
| FrameMirror.RowsMustFit | UWP-Port/BochsUwpBridge.cpp:213 | for every geometry whose row bytes wrap around, a run after which the target is stale |
| FrameMirror.CopyReportsNews | UWP-Port/BochsUwpBridge.cpp:176-202 | after every run, a copy marks the target dirty if and only if the frame is valid and it is forced or something was drawn since the last copy; it then reports the accumulated box, or the whole frame if the geometry is new or nothing was drawn; geometry and validity are the frame's, and nothing is left of an invalid one |
| FrameMirror.NothingNewIsNotReported | UWP-Port/BochsUwpBridge.cpp:231-235 | right after any copy an unforced one reports nothing and changes no pixel |
| FrameMirror.DirtyBoxIsLeast | UWP-Port/BochsUwpBridge.cpp:27-49 | over every run, any box that holds everything drawn since the last copy holds the dirty box |
| FrameMirror.ClearShowsColour | UWP-Port/BochsUwpBridge.cpp:127-143 | a clear gives every pixel of a valid frame the colour |
| FrameMirror.UpdateShowsSource | UWP-Port/BochsUwpBridge.cpp:104-115 | after an update, pixel (row, col) is the source's inside the clipped rectangle and the old one elsewhere |
| FrameBridge.UnionCovers | UWP-Port/BochsUwpBridge.cpp:40-48 | the accumulated box contains the old box and the new rectangle and stays inside the frame |
| FrameBridge.UnionIsLeast | UWP-Port/BochsUwpBridge.cpp:40-48 | every box that contains both contains the accumulated box |
| FrameBridge.WordIsLittleEndian | UWP-Port/BochsUwpBridge.cpp:110-115 | a pixel written has the four bytes of the source, the blue one lowest |
| FrameBridge.UpdateKeepsWellFormed | UWP-Port/BochsUwpBridge.cpp:104-118 | an update keeps the buffer sized and the box inside the frame |
| FrameBridge.ConfiguredIsSized | UWP-Port/BochsUwpBridge.cpp:80-87 | the 32-bit allocation covers the image if and only if the area fits 32 bits |
| FrameBridge.RowIsWhole | UWP-Port/BochsUwpBridge.cpp:109 | a full row is moved if and only if its byte count fits 32 bits |
| FrameBridge.RowStart32 | UWP-Port/BochsUwpBridge.cpp:137 | the 32-bit product is where the row starts |
| BridgeHost.PaintRow | UWP-Port/BochsUwpBridge.cpp:110-115 | one more row copy is one more painted row of the box |
| BridgeHost.BlendRow | UWP-Port/BochsUwpBridge.cpp:218-223 | one more row copy is one more transferred row of the box |
| BridgeHost.Bridge.SetFullDirtyRect | UWP-Port/BochsUwpBridge.cpp:18-25 | the box becomes the whole frame |
| BridgeHost.Bridge.IncludeRect | UWP-Port/BochsUwpBridge.cpp:27-49 | the box becomes the union, nothing else changes |
| BridgeHost.Bridge.HostConfigure | UWP-Port/BochsUwpBridge.cpp:76-88 | the new geometry; valid if and only if not empty, of 32 bits and with a pitch of a row or more; opaque black, all dirty; well-formed if the area fits |
| BridgeHost.Bridge.HostUpdateRect | UWP-Port/BochsUwpBridge.cpp:90-119 | the new frame: clipped rectangle painted, box extended, or nothing |
| BridgeHost.Bridge.PaintRows | UWP-Port/BochsUwpBridge.cpp:107-115 | the row loop paints exactly the box |
| BridgeHost.Bridge.HostClear | UWP-Port/BochsUwpBridge.cpp:127-143 | every pixel of a valid frame gets the colour, and all is marked dirty; nothing otherwise |
| BridgeHost.Bridge.FillRows | UWP-Port/BochsUwpBridge.cpp:135-139 | the row loop fills exactly the image |
| BridgeHost.Bridge.CopyFrameInto | UWP-Port/BochsUwpBridge.cpp:170-238 | target and frame, in every case; the result is whether pixels are included, which the target's dirty flag says too |
| BridgeHost.Bridge.TransferPixels | UWP-Port/BochsUwpBridge.cpp:193-229 | the box is chosen, the buffer resized and the pixels transferred |
| BridgeHost.Bridge.CopyRows | UWP-Port/BochsUwpBridge.cpp:213-223 | the row loop transfers exactly the box |
| FrameTexture.ScreenShowsFrame | UWP-Port/Content/BochsFrameRenderer.cpp:344-374 | after every run of drawing, rendering and losing the device, a render of a valid frame leaves a texture of the right size that shows it in every texel, although only reported boxes were uploaded (geometries as in `FrameMirror.EveryCopyIsWhole`); within the device's limit it equals the frame |
| FrameTexture.RenderShows | UWP-Port/Content/BochsFrameRenderer.cpp:359-374 | one render of a texture that shows the consumer's snapshot leaves one that shows the frame |
| FrameTexture.ScreenFollows | UWP-Port/Content/BochsFrameRenderer.cpp:132-149 | every run leaves the texture showing the consumer's snapshot, whatever was drawn since, or both are gone |
| FrameTexture.PartialUploadShows | UWP-Port/Content/BochsFrameRenderer.cpp:295-317 | an upload of the box is enough if the texture showed a frame that differs from this one in the box only |
| FrameTexture.FullUploadShows | UWP-Port/Content/BochsFrameRenderer.cpp:277-317 | an upload of everything, scaled or not, shows the frame |
| FrameTexture.ShownInFrame | UWP-Port/Content/BochsFrameRenderer.cpp:196-209 | a scaled texel is taken from inside the frame |
| FrameTexture.ShowsUnscaled | UWP-Port/Content/BochsFrameRenderer.cpp:165-172 | a texture of the frame's size shows it if and only if it has the same pixels |
| FrameTexture.OneCopyIsEnough | UWP-Port/Content/BochsFrameRenderer.cpp:359-368 | in every run the guard of the second copy is false |
| FrameRenderer.BochsFrameRenderer.constructor | UWP-Port/Content/BochsFrameRenderer.cpp:132-149 | no texture and no snapshot, which is in step with any frame of the bridge |
| FrameRenderer.BochsFrameRenderer.EnsureFrameTexture | UWP-Port/Content/BochsFrameRenderer.cpp:214-268 | the texture is kept if texture and frame have the sizes it was made for, else a fresh one |
| FrameRenderer.BochsFrameRenderer.BuildScaledPixels | UWP-Port/Content/BochsFrameRenderer.cpp:190-212 | every texel is the nearest pixel, rounding down |
| FrameRenderer.BochsFrameRenderer.ScaleRow | UWP-Port/Content/BochsFrameRenderer.cpp:198-209 | one row of it |
| FrameRenderer.BochsFrameRenderer.UploadFrameTexture | UWP-Port/Content/BochsFrameRenderer.cpp:270-318 | the box if it is partial and the sizes agree, everything else otherwise, nothing without pixels |
| FrameRenderer.BochsFrameRenderer.FetchFrame | UWP-Port/Content/BochsFrameRenderer.cpp:359-368 | the copies of a render |
| FrameRenderer.BochsFrameRenderer.Render | UWP-Port/Content/BochsFrameRenderer.cpp:344-374 | afterwards the texture shows a valid frame |
| FrameRenderer.BochsFrameRenderer.ReleaseDeviceDependentResources | UWP-Port/Content/BochsFrameRenderer.cpp:132-149 | texture and snapshot are gone |
| TailQueue.LastIsLast | qemu-queue.h:409-410 | the punned access finds the last element, or null in an empty queue |
| TailQueue.PrevIsBefore | qemu-queue.h:411-412 | the punned access finds the element before, or null at the first |
| TailQueue.ContentsAreUnique | qemu-queue.h:319-334 | the pointers determine the contents |
| TailQueue.Head.constructor | qemu-queue.h:339-342 | an empty queue |
| TailQueue.InsertHead | qemu-queue.h:344-352 | the contents become [elm] + s, all forward, back and last pointers right |
| TailQueue.InsertTail | qemu-queue.h:354-359 | the contents become s + [elm] |
| TailQueue.InsertAfter | qemu-queue.h:361-369 | elm goes right behind listelm |
| TailQueue.InsertBefore | qemu-queue.h:371-376 | elm goes right before listelm |
| TailQueue.Remove | qemu-queue.h:378-385 | the contents lose exactly elm, whose own forward link stays |
| TailQueue.Foreach | qemu-queue.h:387-390 | visits the contents in order |
| TailQueue.ForeachReverse | qemu-queue.h:397-400 | visits the reverse of the contents, through back links only |
| TailQueue.ReverseAt | qemu-queue.h:397-400 | what reverse order means, position by position |
| TailQueue.ForeachSafeRemove | qemu-queue.h:392-395 | a body that removes elements leaves the queue with exactly the others, in order |
| SimpleQueue.Init | qemu-queue.h:243-246 | an empty queue |
| SimpleQueue.Last | qemu-queue.h:302-306 | the last element, or null |
| SimpleQueue.InsertHead | qemu-queue.h:248-252 | the contents become [elm] + s, the last pointer on the last next field |
| SimpleQueue.InsertTail | qemu-queue.h:254-258 | the contents become s + [elm] |
| SimpleQueue.InsertAfter | qemu-queue.h:260-264 | elm goes right behind listelm |
| SimpleQueue.RemoveHead | qemu-queue.h:266-269 | the contents lose the first element |
| SimpleQueue.Remove | qemu-queue.h:271-282 | the walk finds the element before elm, and the contents lose exactly elm |
| SimpleQueue.Concat | qemu-queue.h:294-300 | the first queue becomes s1 + s2 and the second empty |
| Handshake.ObservedMeansParked | bochs_core_uwp/bochs_core_uwp.cpp:115-186 | in every interleaving an observed pause means: parked, running, pause requested, no shutdown; and whoever waits for something that has come true has a notification pending |
| Handshake.ObservedStaysParked | bochs_core_uwp/bochs_core_uwp.cpp:174-183 | until a resume or shutdown the emulator thread can only wake up and go back to waiting |
| Handshake.WaitAnswersHonestly | bochs_core_uwp/bochs_core_uwp.cpp:152-164 | the answer is 1 if and only if not running, no pause requested, shutting down or parked on this pause; 0 only on a time-out |
| Handshake.ShutdownSticks | bochs_core_uwp/bochs_core_uwp.cpp:143-150 | after a shutdown request every poll that returns before the next run entry returns 1 |
| Handshake.PollSeesShutdownSinceEntry | bochs_core_uwp/bochs_core_uwp.cpp:115-120 | a poll, whether it returns at once or after a wake-up, answers 1 if and only if a shutdown was requested with no run entry after it |
| Handshake.PollHoldsWhilePauseStands | bochs_core_uwp/bochs_core_uwp.cpp:166-186 | over every run a pause is requested if and only if some pause request has no resume and no shutdown request after it; a poll or wake-up leaves the thread parked if and only if such a pause stands and no shutdown does, and otherwise returns with the thread executing and the answer of `PollSeesShutdownSinceEntry` |
| Handshake.ResumeReleases | bochs_core_uwp/bochs_core_uwp.cpp:135-141 | after a resume a parked thread is notified, and its next wake-up returns |
| Handshake.WaitsUntilAnswered | bochs_core_uwp/bochs_core_uwp.cpp:152-164 | a controller is inside the wait from the step that did not answer it to the one that does, and nobody else moves it |
| Handshake.EntryForgetsShutdown | bochs_core_uwp/bochs_core_uwp.cpp:115-120 | a run in which a shutdown request is forgotten and the poll answers 0 |
| Handshake.ObservedUntilReleased | bochs_core_uwp/bochs_core_uwp.cpp:135-150 | within one wait the pause stays observed if and only if nobody released it |
| Handshake.FastResumePause | bochs_core_uwp/bochs_core_uwp.cpp:128-141 | a resume and a pause before the wake-up leave the thread parked but not observed |
| Handshake.FastResumePauseIsReachable | bochs_core_uwp/bochs_core_uwp.cpp:128-141 | a run from power-on that ends so |
| Handshake.UnobservedStaysSo | bochs_core_uwp/bochs_core_uwp.cpp:160-164 | from then on until a release no wait answers 1 |
| Handshake.InvHolds | bochs_core_uwp/bochs_core_uwp.cpp:115-186 | every step keeps the invariant behind these |
| Handshake.ControlBlock.RunEntry | bochs_core_uwp/bochs_core_uwp.cpp:115-121 | running is set, shutdown and observation are cleared |
| Handshake.ControlBlock.SetCoreRunning | bochs_core_uwp/bochs_core_uwp.cpp:51-60 | leaving a run also forgets an observed pause |
| Handshake.ControlBlock.RequestPause | bochs_core_uwp/bochs_core_uwp.cpp:128-133 | only the pause request is set |
| Handshake.ControlBlock.RequestResume | bochs_core_uwp/bochs_core_uwp.cpp:135-141 | request and observation are cleared, and a thread waiting in the poll may go on |
| Handshake.ControlBlock.Shutdown | bochs_core_uwp/bochs_core_uwp.cpp:143-150 | shutdown is requested, pause request and observation are cleared |
| Handshake.ControlBlock.WaitUntilPaused | bochs_core_uwp/bochs_core_uwp.cpp:152-164 | answers as the step does, or waits |
| Handshake.ControlBlock.WaitWoken | bochs_core_uwp/bochs_core_uwp.cpp:160-164 | answers as the step does after a wake-up or time-out |
| Handshake.ControlBlock.PollEntry | bochs_core_uwp/bochs_core_uwp.cpp:166-178 | flags and answer are those of the step, or it waits |
| Handshake.ControlBlock.PollWoken | bochs_core_uwp/bochs_core_uwp.cpp:178-186 | flags and answer are those of the step after a wake-up |
| Crc32.TableCrcIsSerial | crc.cc:53-65 | for every message the table-driven register equals bit-serial division by the polynomial |
| Crc32.ByteStepIsSerial | crc.cc:63 | one table step is eight divider steps |
| Crc32.DivideIsLinear | crc.cc:47-48 | dividing differences is the difference of the divisions |
| Crc32.BurstLeavesRemainder | crc.cc:47-48 | a non-zero bit string with its ones within 32 places never divides out |
| Crc32.BurstsAreDetected | crc.cc:53-65 | messages of equal length that differ only within 32 consecutive bits have different CRCs |
| Crc32.FourByteRunsAreDetected | crc.cc:61-64 | in particular within four consecutive bytes |
| Crc32.EntryOneIsSet | crc.cc:58-59 | entry 1 of a filled table is not zero, so the lazy test recognises it |
| Crc32.CrcTable.InitCrc32 | crc.cc:41-51 | fills every entry |
| Crc32.ShiftedByEight | crc.cc:47-48 | the inner loop shifts and reduces the entry eight times |
| Crc32.CrcTable.EnsureFilled | crc.cc:58-59 | the table is filled afterwards, whether or not it was before |
| Crc32.CrcTable.ComputeCrc32 | crc.cc:53-65 | whatever was computed before, the result is the bit-serial CRC of the message |
| PciAllocator.AllRegionsAreDisjoint | bios/rombios32.c:993-1033 | for all functions on both buses whose I/O and 32-bit memory registers report powers of two, the regions from one cursor are aligned to their size, at or above its start, inside its address space and pairwise disjoint if and only if the same placement over the natural numbers never ends above the address space; they are then exactly where it puts them |
| PciAllocator.BusesAreDisjoint | bios/rombios32.c:1102-1112 | with room on both buses, regions of the two never overlap if and only if the running sum of the root bus puts each of its regions behind one and before the next of the second bus's; the root bus stays out of the second bus's whole area if and only if its running sum stays below it |
| PciAllocator.RegionsKeepDistance | bios/rombios32.c:1012-1031 | with room, memory regions from one cursor begin at least 64K apart and ports at least 16 |
| PciAllocator.WideRegisterIsMisplaced | bios/rombios32.c:1002-1032 | for all functions, with room among the ports, a 64-bit memory register decodes at 4 GB or above, because its upper half is given a port address |
| PciAllocator.SecondBusOverlaps | bios/rombios32.c:1102-1112 | two functions, with room on both buses, that get the same addresses |
| PciAllocator.WrappedCursorOverlaps | bios/rombios32.c:1022-1031 | a function with five memory registers of a gigabyte, whose fifth region is the first one |
| PciAllocator.RoomPlacesSpans | bios/rombios32.c:993-1033 | as long as there is room, 32-bit placement is placement over the natural numbers |
| PciAllocator.NoRoomMisplaces | bios/rombios32.c:1022-1031 | as soon as there is none, some region starts at address 0 |
| PciAllocator.NextSpan | bios/rombios32.c:1022-1031 | a natural placement ends inside the address space or starts exactly at its end |
| PciAllocator.PlacedAt | bios/rombios32.c:1022-1031 | every region lands at its cursor rounded up to its size, and the cursor moves past it, both modulo the address space |
| PciAllocator.SizeOfReport | bios/rombios32.c:1004-1006 | the sizing arithmetic inverts what section 6.2.5.1 of PCI Local Bus Specification 3.0 lets an I/O or 32-bit memory register report, also with the upper half of an I/O register hardwired to zero |
| PciAllocator.PciBios.InitRegion | bios/rombios32.c:1004-1032 | one turn of the region loop: a register that is there adds one region, and the one cursor for its kind and bus ends behind it, 64K or 16 ports further at least, modulo 2^32; no other moves |
| PciAllocator.PciBios.InitDevice | bios/rombios32.c:930-1039 | one region is added for each register that is there if the header type is 0 modulo 4 and the class is none of 0x0101, 0x0800 and 0xff00, or is 0x0101 for 8086:1230, 8086:7010 or 8086:7111; otherwise nothing changes |
| PciAllocator.PciBios.InitDevices | bios/rombios32.c:1083-1100 | the loops over buses and functions place the registers of every present function in order |
| Bits.AndRun | bios/rombios32.c:1022 | masking with a run of ones rounds down to a multiple of a power of two |
| OptionRom.CopyReadsBack | bios/rombios32.c:904-923 | a copied ROM reads back in full, in segments that read RAM and ignore writes |
| OptionRom.CopyKeeps | bios/rombios32.c:904-923 | and so does every ROM placed below it, even in a shared segment |
| OptionRom.CopiesCompose | bios/rombios32.c:904-923 | copying segment by segment is one copy of the whole |
| OptionRom.AccessIsSet | bios/rombios32.c:915-920 | setting one segment's access leaves its neighbour nibble and its own other bits alone |
| OptionRom.OptionRoms.SetAccess | bios/rombios32.c:909-920 | the same on the registers |
| OptionRom.OptionRoms.StoreBlock | bios/rombios32.c:918 | a store reaches the RAM only while the segment is write-enabled |
| OptionRom.OptionRoms.CopyBlock | bios/rombios32.c:905-920 | one turn of the loop copies up to the end of a segment |
| OptionRom.OptionRoms.CopyRom | bios/rombios32.c:902-923 | exactly the ROM's bytes change, exactly the touched segments end read-enabled and write-protected |
| OptionRom.OptionRoms.InitPciRom | bios/rombios32.c:884-928 | a mapped ROM is copied if and only if it fits below 0xe0000, and its register loses the enable bit; all ROMs placed so far read back in full, in disjoint ranges in order; otherwise nothing changes |
| OptionRom.OptionRoms.CopyAndPlace | bios/rombios32.c:902-925 | the new ROM reads back and so do the old ones |
| OptionRom.OptionRoms.SkipVgaBios | bios/rombios32.c:1066-1074 | room for an ISA VGA BIOS is skipped only at the start |
| OptionRom.SkippedBytes | bios/rombios32.c:1068-1073 | that is the least multiple of 16K that holds it |
| OptionRom.RomBytes | bios/rombios32.c:894-899 | the bytes of a ROM: at least 512 per unit of its length byte, a multiple of 2K |
| Ssdt.SsdtDeclaresEveryCpu | bios/rombios32.c:1582-1633 | for every CPU count the table's length field and checksum are right, and reading its AML gives the scope \_PR_ with min(count, 255) Processor objects |
| Ssdt.CpusAreDistinct | bios/rombios32.c:1611-1624 | they are numbered from 0 and no two have the same name |
| Ssdt.NameSpellsNumber | bios/rombios32.c:1614-1619 | a name is a NameSeg of section 20.2.2 of ACPI 6.0 and spells the number in hexadecimal |
| Ssdt.CpuBlock | bios/rombios32.c:1620-1624 | the register block is six bytes at port 0xb010 |
| Ssdt.HeaderReadsBack | bios/rombios32.c:1558-1580 | revision, OEM and creator fields are where section 5.2.6 of ACPI 6.0 puts them |
| Ssdt.ScopeReads | bios/rombios32.c:1594-1625 | the scope's length reaches exactly to the end of what is emitted, and its content parses |
| Ssdt.PkgLengthDecodes | bios/rombios32.c:1591-1603 | in the one- and the two-byte form PkgLength decodes, by section 20.2.4 of ACPI 6.0, to the bytes emitted |
| Ssdt.ReadOne | bios/rombios32.c:1610-1624 | each emitted object parses as the Processor meant |
| Ssdt.NameIdentifies | bios/rombios32.c:1614-1619 | the name determines the number |
| Ssdt.CheckedTableIsTable | bios/rombios32.c:1558-1580 | a table around any body has the right length field and sums to zero |
| Ssdt.AcpiChecksum | bios/rombios32.c:1549-1556 | the negated sum modulo 256 |
| Ssdt.BuildTableHeader | bios/rombios32.c:1558-1580 | the header and its checksum around the body already written |
| Ssdt.PutScopeHead | bios/rombios32.c:1591-1607 | the bytes of the scope's head |
| Ssdt.PutObject | bios/rombios32.c:1611-1624 | the bytes of one object |
| Ssdt.PutObjects | bios/rombios32.c:1609-1625 | the bytes of all of them, in order |
| Ssdt.BuildProcessorSsdt | bios/rombios32.c:1582-1633 | memory holds exactly the table, and nothing behind it changes |
| Smbios.EntryPointSumsToZero | bios/rombios32.c:1998-2012 | the first 16 bytes, the intermediate part and all 0x1f bytes sum to zero, per section 5.2.1 of DSP0134 |
| Smbios.EntryPointReadsBack | bios/rombios32.c:1984-1996 | the fields are where the specification puts them |
| Smbios.SetChecksum | bios/rombios32.c:2003-2011 | the checksum of one part, summed in a byte |
| Smbios.EntryPointInit | bios/rombios32.c:1975-2012 | memory holds exactly the entry point, and nothing behind it changes |
| Smbios.ProbeReadsBack | bios/rombios32.c:544-559 | the CMOS bytes can be told from the two sizes: the digits of the size above 4 GB, and of the size above 16 MB or else above 1 MB; the first size is below 4 GB, the second equals it or is above 4 GB |
| Smbios.RamProbe | bios/rombios32.c:544-559 | the sizes read have these bounds and tell the CMOS bytes |
| Smbios.MemSizeIsDescribable | bios/rombios32.c:2310-2311 | whatever the CMOS says, the memory size is below 4 TB |
| Smbios.MemSizeCountsBoth | bios/rombios32.c:2310-2311 | the memory size is that below 4 GB and that above, together in whole megabytes |
| Smbios.HandlesDifferUpToFourTerabytes | bios/rombios32.c:2334-2343 | no two of these structures have the same handle if and only if memory is at most 4 TB |
| Smbios.SizesSumToMemory | bios/rombios32.c:2334-2340 | for every memory size the type 17 sizes add up to it |
| Smbios.RangesTileMemory | bios/rombios32.c:2237-2238 | up to 4 TB the ranges tile memory: every kilobyte below its end is in exactly one, none above |
| Smbios.DisjointUpToFourTerabytes | bios/rombios32.c:2258-2259 | no two ranges overlap if and only if memory is at most 4 TB |
| Smbios.RangeIsExact | bios/rombios32.c:2237-2238 | no address wraps around, and each range ends where the next begins |
| Smbios.TableGivesTheRanges | bios/rombios32.c:2340-2342 | the type 19 and 20 structures of a device give the same range and refer to it by its handles |
| Smbios.MemoryStructures | bios/rombios32.c:2334-2343 | the loop emits the structures of every device in order |
| CaptureFifo.NothingIsReordered | UWP-Port/BochsUwpAudio.cpp:187-204 | over every run, the bytes that left the queue followed by those in it are the captured stream, in order |
| CaptureFifo.CapturedIsAccountedFor | UWP-Port/BochsUwpAudio.cpp:193-204 | captured bytes are delivered, lost or pending; if none is lost, delivered then pending is the captured stream |
| CaptureFifo.AnswersAreTheDelivered | UWP-Port/BochsUwpAudio.cpp:482-502 | what requests were answered with, joined, is the delivered part of that history, in capture order |
| CaptureFifo.FrameKeepsTheNewest | UWP-Port/BochsUwpAudio.cpp:193-197 | the cap drops the oldest pending bytes and no more than needed |
| CaptureFifo.PendingIsBounded | UWP-Port/BochsUwpAudio.cpp:188-197 | pending bytes never exceed the larger of the limit and the largest frame |
| CaptureFifo.CaptureBuffer.Compact | UWP-Port/BochsUwpAudio.cpp:201-202 | compaction is invisible |
| CaptureFifo.LimitHoldsOneSecond | UWP-Port/BochsUwpAudio.cpp:188-189 | the limit is 19200 * 8 bytes or one second of the format in force, whichever is more, unless that overflows a 64-bit word |
| CaptureFifo.CaptureBuffer.MaxBuffered | UWP-Port/BochsUwpAudio.cpp:188-189 | the limit computed is at least 19200 * 8 bytes and is that maximum |
| CaptureFifo.CaptureBuffer.MakeRoom | UWP-Port/BochsUwpAudio.cpp:190-197 | exactly the excess is skipped |
| CaptureFifo.CaptureBuffer.CopyCaptureFrame | UWP-Port/BochsUwpAudio.cpp:187-204 | the excess of the oldest bytes is dropped and the frame appended, whether or not the queue is compacted |
| CaptureFifo.CaptureBuffer.Take | UWP-Port/BochsUwpAudio.cpp:488-502 | hands out the oldest bytes |
| CaptureFifo.CaptureBuffer.InputGet | UWP-Port/BochsUwpAudio.cpp:475-508 | byte k of the caller's buffer, up to the length asked for, becomes byte k of the pending ones if there is one, else 0; the rest of the buffer is unchanged; the pending bytes lose exactly those handed out; 0 or -1 by readiness |
| CaptureFifo.CaptureBuffer.CloseCapture | UWP-Port/BochsUwpAudio.cpp:266-271 | all pending bytes are thrown away and recorded as such, the format is forgotten |
| CaptureFifo.CaptureBuffer.OpenCapture | UWP-Port/BochsUwpAudio.cpp:274-331 | an open device with the same format keeps its pending bytes, any other loses them; it succeeds if and only if the device was open in this format, or the format has no zero and the device opens, and is then ready in this format, else closed |

## Left out

Timers:

- Conversion between ticks and microseconds in floating point; all ticks are given, and `SequentialTime` takes the microsecond clock as a parameter.
- CPU, device, A20, reset, save/restore and GUI parts of `pc_system.cc`, timer names and parameters, the debugging checks under `BX_TIMER_DEBUG`, `timebp_handler`, and `exit()`.
- `triggeredTimer` is set and cleared but no theorem mentions it.
- Callbacks that tick the clock themselves, read the countdown, or name slot 0.

Frame bridge:

- Status text, the present flag, mouse state and the sink callbacks; a null source pointer; `CopyFrame`, which starts from an empty target.
- Drawing the texture: constants, shaders, the view, and loading of device resources. An event of the emulator, a render and the loss of the device are single steps.
- A second consumer: the dirty box is shared, so the mirror property is about one persistent target.

Queues:

- QLIST and the concurrency of readers; `QSIMPLEQ_FOREACH`, whose loop is that of `QTAILQ_FOREACH`.

Handshake:

- The notification after run entry is sent after the mutex is released; the model sends it in the same step.
- Bochs itself between polls, saving of state, the log buffer and its trimming, argument lists and file names.

BIOS:

- PciAllocator.PciBios.InitRegion: does not make the option-ROM copy for a VGA function (bios/rombios32.c:1024-1026), which moves no cursor; the copy itself is `OptionRom.OptionRoms.InitPciRom`.
- PciAllocator.PciBios.InitDevice: does not write the fixed addresses of legacy functions, the command registers or the interrupt lines, which move no cursor either. Registers are represented by what they read back while being sized.
- Smbios.MemoryStructures: gives the fields of the type 17, 19 and 20 structures, cut to their widths, and not their bytes and strings.
- Bridges, and which functions have an option ROM.
- 64-bit memory registers of 4 GB and more; of smaller ones `PciAllocator.WideRegisterIsMisplaced` says what becomes.
- Other ACPI tables, the MP table and other SMBIOS structures.
- MTRR setup, SMP probing, SMM and port I/O.

Capture buffer:

- Construction of the audio graph, which appears as a parameter saying whether it succeeded, and a null destination pointer.
- Failures of memory allocation.

Not modelled at all: the XAML pages, the scene around the renderer, audio output, MIDI, file pickers, thread creation, directive parsing and other configuration code.
