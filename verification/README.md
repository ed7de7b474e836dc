# projectMM: a verified model of the runtime core

projectMM is a small runtime for LED controllers. A manager owns a forest of
modules; a scheduler ticks them from several cores under one lock; effects share
pixel frames with outputs through single-slot buffers. This project models the
parts where that is hard to get right and proves what they promise.

- **The module forest** (`Forest`, `ForestOps`, `Slots`, `MoonModule`,
  `ChildOrder`, `ModuleManager`, `ManagerFacts`, `Acyclic`, `RootReorder`). The runtime keeps
  three views of one tree: parent links, child lists, and a flat owner list in
  depth-first order. `ModuleManager` is a class over module objects, edited in
  place as in the source. Its ghost field `forest` is the tree; `Valid` says that
  all three views and the parent flags agree with it. Every public operation
  requires and ensures `Valid` and gives the new tree as a function of the old
  one, so the invariant holds after any sequence of operations.
- **Saving and reloading the module list** (`SavedList`, `Relinking`,
  `StateStore`, `SecondSave`). The two-pass loader, run on the list a snapshot
  wrote, rebuilds the tree; saving that gives the same list under an exact condition.
- **Passes and cadences** (`Scheduler`, `CoreLoop`). One core's whole loop: which
  modules it enters, how often, and how far apart the slow hooks run.
- **Frame sharing** (`DataBuffer`, `ReaderRuns`, `FrameProtocol`, `PixelEffect`,
  `DataRegistry`). The revision word and the reader cursors with their 32-bit
  wrap-around; what each reader is served, read off the order of the calls, for
  any interleaving of publishes, attaches, acquires and releases with no lock; a
  state machine over arbitrary interleavings of the cores under the lock, with
  reallocations; the buffers' sizes under any sequence of geometry changes and failed allocations,
  and the registry's array as a map.
- **SHA-1, base64, WebSocket frames** (`ByteOrder`, `Sha1`, `Sha1Example`, `WsCodec`) against
  FIPS 180-1 and its worked example, RFC 4648 section 4 and RFC 6455 sections 4.2.2 and 5.2, which are
  written out as functions of their own.
- **Stable fluids** (`Fluid`, `FlowFluidEffect`, `FlowMeaning`): over the reals, where
  advection reads a cell from and which equation diffusion solves; neither creates new
  extrema, and dye stays bounded over whole runs.
- **The WiFi station** (`Wifi`, `WifiHistory`): the transmit-power staircase and the
  promotion probe, with the radio's answers and the clock as inputs, and what state and
  commands tell of the events so far.
- **Three algorithms** (`Columns`, `ArtnetOut`, `GridLayout`).

`Arithmetic` holds the 32-bit word and the few number facts several files share.

Code that changes state step by step is a class or a method with a loop, proved
against a specification function; the theorems are lemmas about those functions.

## Where the code does not meet its promise

Each of these is proved below: a failing case, and the exact condition under which
the promise holds.

- `reparent` does not test that the new parent lies outside the moved subtree. A
  module with a "source" input even accepts itself
  (`ManagerFacts.SelfParentIsAccepted`). The result is a tree exactly when the new
  parent lies outside (`Acyclic.ReparentStaysATree`); the manager's methods require
  it.
- Nested reorder narrows the entry count to 8 bits, so a repeated child can pass the
  length test and another child is lost (`ChildOrders.CounterOverflowLosesAChild`).
  The test decides rightly exactly when nothing is listed twice or the surplus is no
  multiple of 256 (`ChildOrders.CounterDecidesExactly`).
- An accepted `reparent` writes the parent's id into a bounded buffer; following that
  text leads back to the parent exactly when the id fits
  (`ModuleManagers.LinkLeadsBack`).
- Reordering the top level tests for empty entries where it means filled ones
  (`src/core/ModuleManager.cpp:163`), so every top-level module is dropped; nothing
  is lost only in an empty manager (`RootReorders.RootReorderLosesRoots`). It is kept
  apart from the forest invariant, which the other operations preserve.
- A buffer that has seen 2^32 - 1 publishes shows the "dead" sentinel
  (`DataBuffers.FirstMissedFrame`, `DataBuffers.DeliversExactly`). A reader that keeps
  its cursor across a reallocation misses the one frame of the new epoch whose number
  is its old count (`DataBuffers.ReadAcrossReallocation`,
  `DataBuffers.KeptCursorMissesOneFrame`).
- A frame slot that could not be allocated is never asked for again while the
  geometry stays the same (`PixelEffects.DeniedSlotFromBoot`); an effect copies
  exactly when both requests were granted (`PixelEffects.CopiesAfterAllocate`).
- Buffer sizes are requested in bytes, cut to a `size_t`. When the frame copy runs both
  buffers hold all w*h*d pixels exactly if the pixel count fits 32 bits and its triple
  fits a `size_t` (`PixelEffects.CopySizes`, `PixelEffects.PlatformLimits`). With 32-bit
  sizes a geometry of 1431676406 pixels gets 61922 bytes
  (`PixelEffects.OversizedFromBoot`).
- A frame of 2^32 bytes or more is sent only up to its length modulo 2^32
  (`ArtnetOutputs.WholeFrameArrives`).
- The WiFi promotion probe notices a lost link only if it drops within a tick;
  otherwise it can report success while the radio is back at reduced power
  (`WifiStations.PromotionIsGenuine`, and from boot `WifiStations.DroppedLinkIsPromoted`).
  A rung left by an earlier timeout lets a probe override the power the user set
  (`WifiStations.UserPowerHolds`, `WifiStations.ProbeOverridesUser`), although
  `src/modules/system/WifiStaModule.h:158-160` promises otherwise.
- A probe scheduled less than an hour before the 32-bit clock wraps is due at once
  (`WifiStations.ProbeWaitsAnHour`).
- `undeclare` removes one entry, so a buffer declared under two ids keeps one of
  them (`DataRegistries.SharedBufferSurvives`, `DataRegistries.UndeclareDropsBuffer`).
- A panel with an odd number of pixels ends in an ArtDmx packet of odd length,
  while Art-Net 4 asks for even ones (`ArtnetOutputs.LengthsAreEven`).
- `src/main.cpp:61` says that head modules are never persisted; the snapshot leaves
  out only modules of type "state-store", so four of the five are
  (`SavedLists.BootAndSave`, `SavedLists.HeadsAreNeverSaved`).

## What callers must see to

Fresh ids are tested by the callers of `add` (`src/modules/network/HttpServerModule.cpp:116`,
`src/modules/system/StateStoreModule.h:154`). Nothing in the code keeps child counts
at 252 or below, the last capacity an 8-bit counter growing by four reaches, or
control counts at 127 or below, the range of the 8-bit control index; the model
requires both.

## Model

| member | source | states |
|---|---|---|
| `MoonModules.ParentInputPrecedence` | src/core/ModuleManager.cpp:93-115 | the accepting input is the first text control named for the parent's type if there is one, else for its category, else "source"; without any there is none |
| `MoonModules.FirstText` | src/core/ModuleManager.cpp:107-112 | the first text control with that key and no earlier one, or none at all |
| `MoonModules.MoonModule.AddChild` | src/core/MoonModule.cpp:366-379 | the child goes to the end of the list and points back |
| `MoonModules.MoonModule.RemoveChild` | src/core/MoonModule.cpp:381-389 | the shifting loop removes the first occurrence, keeps the others in order, and clears the link only of a child it found |
| `MoonModules.MoonModule.ReorderChildren` | src/core/MoonModule.cpp:391-396 | a new order is taken exactly when its length is the child count, else nothing changes |
| `MoonModules.MoonModule.ParentInputIdx` | src/core/ModuleManager.cpp:103-115 | the single scan finds exact type before category before "source" |
| `Forests.ParentChildInverse` | src/core/MoonModule.cpp:366-389 | in a forest without repeats, c is among p's children if and only if p is c's parent |
| `Forests.ParentlessAreRoots` | src/core/ModuleManager.cpp:85-87 | the nodes without a parent are exactly the top level |
| `ForestOps.PruneNodes` | src/core/ModuleManager.cpp:56-61 | cutting x out removes x's subtree, nothing else |
| `ForestOps.PruneLinks` | src/core/ModuleManager.cpp:51-61 | after removal every survivor keeps its parent and its children but x |
| `ForestOps.PromoteLinks` | src/core/ModuleManager.cpp:178-187 | promotion changes x's parent and its old parent's child list only |
| `ForestOps.PromoteOrder` | src/core/ModuleManager.cpp:82-91 | after promotion the top level stands in the order of the old owner list |
| `ForestOps.MoveNodes` | src/core/ModuleManager.cpp:220-222 | moving x under p outside its subtree keeps all nodes, and the new top level is the owner list restricted to it |
| `ForestOps.MoveLinks` | src/core/ModuleManager.cpp:220-221 | moving x appends it to p's children, takes it from its old parent, and changes no other link |
| `ForestOps.ReorderLinks` | src/core/ModuleManager.cpp:139-141 | reordering p's children changes p's child list only |
| `ModuleManagers.Dfs` | src/core/ModuleManager.cpp:71-79 | the recursive walk terminates on subtree size, empties exactly the subtree's slots and appends its pre-order |
| `ModuleManagers.DfsAll` | src/core/ModuleManager.cpp:88 | over all roots it empties every slot and yields the forest's pre-order |
| `ModuleManagers.RunTeardown` | src/core/MoonModule.cpp:85-89 | teardown runs over the subtree in post-order |
| `ModuleManagers.ModuleManager.SortDepthFirst` | src/core/ModuleManager.cpp:82-91 | the re-sort leaves the owner list in depth-first order of the tree the pointers describe; the safety net moves nothing |
| `ModuleManagers.ModuleManager.CollectRoots` | src/core/ModuleManager.cpp:85-87 | the collected roots are the top-level modules in owner order |
| `ModuleManagers.ModuleManager.Find` | src/core/ModuleManager.cpp:236-240 | the first module with the id, or null if there is none |
| `ModuleManagers.ModuleManager.Add` | src/core/ModuleManager.cpp:15-37 | keeps the invariant and adds a new last top-level module; a registered type gets its registered category, core and controls, an unknown one a bare module |
| `ModuleManagers.ModuleManager.Remove` | src/core/ModuleManager.cpp:39-66 | succeeds exactly when the id exists; removes that module's subtree from all views, tears it down in post-order, keeps the invariant; otherwise changes nothing |
| `ModuleManagers.ModuleManager.Reparent` | src/core/ModuleManager.cpp:172-226 | accepted exactly when the module exists and the target is the top level or an existing module for which it has an input; the tree becomes the promoted or moved one; only the accepting input's text changes, to p's id or as much of its start as fits, and with unique ids it leads back to p exactly when the id fits; a rejected call changes nothing |
| `ModuleManagers.ModuleManager.PromoteToRoot` | src/core/ModuleManager.cpp:178-187 | the module becomes a root right after the tree it came from, its flag down |
| `ModuleManagers.ModuleManager.Nest` | src/core/ModuleManager.cpp:206-225 | the input holds the parent's id, or as much of its start as fits, the flag points at it, the module is the last child of the new parent, or stays where it is if it was a child of it already |
| `ModuleManagers.ModuleManager.ReorderChildrenOf` | src/core/ModuleManager.cpp:119-145 | accepted exactly when no child is requested twice; then requested children stand before the others and in the order of the request, the others in old order; else the tree is unchanged |
| `ModuleManagers.ModuleManager.CollectOrder` | src/core/ModuleManager.cpp:127-138 | the candidate order is the listed children, repeats kept, then the unlisted ones |
| `ModuleManagers.LinkLeadsBack` | src/core/ModuleManager.cpp:208-212 | a text that holds p's id, or as much of it as fits, is looked up as p exactly when the id fits |
| `ManagerFacts.ViewsAgree` | src/core/ModuleManager.cpp:71-91 | in every valid state no module is lost or repeated, parent and child links are inverse and stay inside the owner list, a parent exists exactly when the parent index is not -1, and every subtree is contiguous |
| `ManagerFacts.DepthFirstOrder` | src/core/ModuleManager.cpp:71-91 | in the owner list a module stands before its children, and these stand in child order |
| `ManagerFacts.OrderById` | src/core/ModuleManager.cpp:127-140 | with unique ids, of two reordered children the one with a requested id comes first, two requested ones stand as in the request, two others as before |
| `ManagerFacts.SelfParentIsAccepted` | src/core/ModuleManager.cpp:190-204 | a module with a "source" input accepts itself as parent, which lies in its own subtree |
| `ManagerFacts.RemovalKeepsOrder` | src/core/ModuleManager.cpp:57-60 | the survivors of a removal keep their relative order |
| `ManagerFacts.RemovalLeavesNoLink` | src/core/ModuleManager.cpp:45-51 | no survivor's parent or child link names a removed module |
| `ManagerFacts.TeardownChildrenFirst` | src/core/MoonModule.cpp:85-89 | each removed module is torn down once, after everything nested below it |
| `ManagerFacts.TeardownInChildOrder` | src/core/MoonModule.cpp:85-89 | siblings are torn down in child order |
| `RootReorders.ReorderRoots` | src/core/ModuleManager.cpp:147-169 | whatever order is asked for, the owner list becomes its modules that have a parent |
| `RootReorders.RootReorderLosesRoots` | src/core/ModuleManager.h:46-48 | no top-level module survives, so the promised reordering loses nothing exactly when the manager is empty |
| `ChildOrders.CollectedLength` | src/core/ModuleManager.cpp:127-140 | the collected order has the children as its elements, and the right length exactly when nothing is listed twice |
| `ChildOrders.CollectedIsRearranged` | src/core/ModuleManager.cpp:127-138 | the collected order has the same children, requested ones first and as requested, the others in old order, exactly when no child is requested twice |
| `ChildOrders.CounterDecidesExactly` | src/core/ModuleManager.cpp:139-140 | for every request the 8-bit length test is right exactly when nothing is listed twice or the surplus is no multiple of 256 |
| `ChildOrders.CounterOverflowLosesAChild` | src/core/ModuleManager.cpp:139-140 | 257 repeats of one of two children pass the 8-bit length test and lose the other |
| `Acyclic.ReparentStaysATree` | src/core/ModuleManager.cpp:172-226 | hanging x under p leaves a tree if and only if p is outside x's subtree |
| `SavedLists.Snapshot` | src/modules/system/StateStoreModule.h:106-120 | the list is every module but the state store in owner order with its parent's id |
| `SavedLists.SavedParentFirst` | src/modules/system/StateStoreModule.h:110-117 | in a saved list no module stands before one it is nested in |
| `SavedLists.SavedKids` | src/modules/system/StateStoreModule.h:110-117 | a module's children, read off the saved list, are its children in order |
| `SavedLists.HeadsAreNeverSaved` | src/main.cpp:61 | modules added at boot stay out of every saved list exactly when all are state stores |
| `SavedLists.AddHeads` | src/main.cpp:62-68 | each head module but the state stores adds its record at the end of the list |
| `SavedLists.BootAndSave` | src/main.cpp:61-68 | after the program's boot the saved list holds four of the five head modules |
| `StateStores.AddMissing` | src/modules/system/StateStoreModule.h:148-159 | the first pass leaves the present modules in place and appends exactly the missing ones, in list order |
| `StateStores.RelinkAll` | src/modules/system/StateStoreModule.h:160-166 | the second pass is accepted for every entry with a parent and yields the relinked tree |
| `StateStores.LoadModules` | src/modules/system/StateStoreModule.h:138-168 | after both passes every saved module has a counterpart with the same parent and the same children in the same order |
| `Relinking.RelinkedIsRebuilt` | src/modules/system/StateStoreModule.h:160-166 | after k entries the child lists are the saved ones restricted to those entries, modules not yet reached are childless roots, and the top level keeps its order |
| `Relinking.EntryIsLeaf` | src/modules/system/StateStoreModule.h:160-166 | when an entry is reached its module is still a childless root, so hanging it up cannot close a cycle |
| `StateStores.StorableIsReloadable` | src/modules/system/StateStoreModule.h:110-117 | a parent link that was accepted once is accepted again by a manager with the same types |
| `StateStores.SaveAndReload` | src/modules/system/StateStoreModule.h:106-168 | saving one manager and loading into a freshly booted one rebuilds parents, child orders and the relative order of the added roots |
| `SecondSaves.SaveReloadSave` | src/modules/system/StateStoreModule.h:106-168 | saving, loading into a fresh manager and saving again gives the same list exactly when the booted modules that stay top-level, followed by the missing top-level ones, are the saved top level in order |
| `SecondSaves.ListsByRoots` | src/modules/system/StateStoreModule.h:106-120 | after a reload the two lists are equal exactly when their top levels are |
| `SecondSaves.SameOrder` | src/core/ModuleManager.cpp:82-91 | trees with the same children ids everywhere and the same top level have the same depth-first ids |
| `SecondSaves.TopAfterReload` | src/modules/system/StateStoreModule.h:148-166 | the reloaded top level is the staying booted modules, then the added ones |
| `StateStores.StateStore.Loop1s` | src/modules/system/StateStoreModule.h:60-69 | the file is rewritten exactly when the list differs from the last one written |
| `Schedulers.RunLoop` | src/core/MoonModule.cpp:51-55 | a dispatch enters the module and all below it in pre-order, parents first, and counts one tick per entry |
| `Schedulers.CorePass` | src/core/Scheduler.cpp:56-67 | a pass enters every module of the core with all below it, for its loop and for each slow hook that is due; it adds to each module's tick count the number of modules with that affinity on its ancestor chain |
| `Schedulers.EntriesInOwnerOrder` | src/core/Scheduler.cpp:58-66 | of two modules of the core the one that stands first in the owner list is entered first, with all below it |
| `Schedulers.EntriesPerPass` | src/core/Scheduler.cpp:58-66 | a module is entered once per ancestor-or-self with the pass's affinity |
| `Schedulers.FlatEntries` | src/core/Scheduler.cpp:58-66 | a top-level module is entered once on its own core and never on another |
| `Schedulers.ChainIsAncestry` | src/core/MoonModule.cpp:51-55 | the chain runs from a root along parent links to the module |
| `Schedulers.RunHook` | src/core/MoonModule.cpp:57-60 | a slow hook's dispatch enters the module and all below it in the same order |
| `CoreLoops.CoreLoop` | src/core/Scheduler.cpp:43-74 | over any run of a core: tick counts rise by the passes times the chain's modules of the core, and each slow hook runs for a module at its firing times, in each once per such module, and at least its period apart in true time across clock wraps |
| `CoreLoops.LogCount` | src/core/Scheduler.cpp:58-66 | a module is in a hook's log as often per firing as in one pass, and at no other time |
| `CoreLoops.LogSpaced` | src/core/Scheduler.cpp:63-71 | entries of a hook's log at different times are at least a period apart |
| `Schedulers.RunTimers` | src/core/Scheduler.cpp:46-71 | driving the three timers over the readings of any run, successive runs of each slow hook are at least its period apart in true time, across clock wraps, and happen at the firing times |
| `Schedulers.FiringsApart` | src/core/Scheduler.cpp:69-71 | the n-th firing comes no sooner than n periods after the start, and each a period after the one before |
| `Schedulers.NeverOverdue` | src/core/Scheduler.cpp:63-71 | if readings are never further apart than a wrap less a period, a run of the hook or the start lies less than a period before every pass, or in it |
| `Schedulers.DueWithinAWrap` | src/core/Scheduler.cpp:63-65 | if the clock is read once per wrap, a hook is due exactly when its period has truly passed |
| `DataBuffers.StampIsSentinel` | src/core/DataBuffer.h:89-90 | the revision word is a sentinel exactly at publish counts 0 and -1 modulo 2^32 |
| `DataBuffers.DeliversWithinEpoch` | src/core/DataBuffer.h:129-137 | up to 2^32 - 2 publishes a cursor is served exactly when it lags the publish count |
| `DataBuffers.DeliversExactly` | src/core/DataBuffer.h:129-137 | whatever the cursor, a frame is delivered exactly when the word is no sentinel and not the released one; for a cursor of the epoch that is when the promise holds |
| `DataBuffers.FirstMissedFrame` | src/core/DataBuffer.h:69-72 | the first unseen frame is number 2^32 - 1, and none before |
| `DataBuffers.KeptCursorMissesOneFrame` | src/core/DataBuffer.h:51-59 | a cursor kept across a reallocation misses exactly the frame whose number is its old count |
| `DataBuffers.ReadAcrossReallocation` | src/core/DataBuffer.h:51-59 | on real objects: publish, release, allocate anew, publish, and the acquire fails exactly when the two counts agree |
| `DataBuffers.RequestHoldsAll` | src/core/DataBuffer.h:54 | the bytes asked for hold all elements exactly when their product fits a size_t |
| `DataBuffers.DataBuffer.Allocate` | src/core/DataBuffer.h:51-59 | a fresh slot or none, a new epoch with nothing published; true exactly for count 0 or a granted request that is not empty; the slot holds all elements exactly when the byte count does not wrap |
| `DataBuffers.DataBuffer.Publish` | src/core/DataBuffer.h:69-72 | the wrapped word stands for one more publish |
| `DataBuffers.DataBuffer.Invalidate` | src/core/DataBuffer.h:85-87 | the buffer is dead afterwards |
| `DataBuffers.DataBufferReader.TryAcquireRead` | src/core/DataBuffer.h:129-137 | the slot exactly when the buffer is live and has a publish this reader has not released |
| `DataBuffers.DataBufferReader.Dead` | src/core/DataBuffer.h:141-143 | true for a dead buffer, and wrongly for one at publish count -1 modulo 2^32 |
| `DataBuffers.DataBufferReader.ReleaseRead` | src/core/DataBuffer.h:145-149 | only this reader's cursor moves, to the current publish, or to the dead word of a dead buffer |
| `ReaderRuns.Drive` | src/core/DataBuffer.h:51-149 | on real objects, for every interleaving of publishes, attaches, detaches, acquires and releases of any number of readers in an epoch of at most 2^32 - 2 publishes, an acquire succeeds exactly when its reader is attached and some publish has no later release of it, save one forgotten by a later attach |
| `ReaderRuns.CursorIsTrace` | src/core/DataBuffer.h:122-149 | an attached reader's cursor lags exactly when the order of calls holds such a publish |
| `ReaderRuns.ServedIsDue` | src/core/DataBuffer.h:129-137 | in such an epoch no sentinel occurs after a publish and the cursor test is the trace's answer |
| `ReaderRuns.OthersUnmoved` | src/core/DataBuffer.h:106-111 | no call of one reader changes what another is due |
| `ReaderRuns.PublishDuringReadIsSkipped` | src/core/DataBuffer.h:145-149 | a frame published between a reader's acquire and its release is not due to it afterwards |
| `FrameProtocol.StepKeepsConsistent` | src/core/Scheduler.cpp:56-67 | every atomic step keeps exclusion, copy progress and the slot equal to the latest publish when nobody copies |
| `FrameProtocol.StepKeepsLog` | src/modules/lights/ArtnetOutModule.h:57-85 | every step, attaching and allocating included, keeps that each delivered frame is the latest publish, that its revision is no sentinel, and that each reader's counts of an epoch never fall and rise within an attachment |
| `FrameProtocol.EveryDeliveryIsWhole` | src/core/Scheduler.cpp:56-67 | in every run of any number of cores and allocations, readers attaching at any time or keeping their cursors, each frame handed out is the complete latest publish, never a mixture, and consumed counts of an epoch strictly increase per attachment |
| `FrameProtocol.RevisionsRise` | src/core/DataBuffer.h:69-78 | the 32-bit revisions a reader consumes are never a sentinel; those of one epoch, up to publish 2^32 - 2, never fall and rise within an attachment |
| `FrameProtocol.RefusedOnlyWhenUpToDate` | src/core/DataBuffer.h:129-137 | a reader that attached or released in this epoch is refused exactly when it has released the latest publish since; one with a kept cursor exactly when nothing is published or the latest publish has its old number |
| `FrameProtocol.ReadersAreIndependent` | src/core/DataBuffer.h:106-111 | with or without the lock, one reader's step changes neither what another is offered nor the slot |
| `FrameProtocol.WithoutExclusionFramesTear` | src/core/Scheduler.cpp:57 | without the lock a run from a fresh epoch exists that delivers half an old and half a new frame |
| `PixelEffects.CopySizes` | src/modules/lights/effects/PixelEffectBase.h:73-96 | after any sequence of allocations, polls and teardowns, when the copy runs both buffers have exactly the copied bytes, and hold exactly w*h*d pixels if and only if that count fits 32 bits and its bytes fit a size_t |
| `PixelEffects.PlatformLimits` | src/modules/lights/effects/PixelEffectBase.h:158-160 | 64-bit sizes ask for a pixel count below 2^32, 32-bit sizes for a byte count below it |
| `PixelEffects.OversizedFromBoot` | src/modules/lights/effects/PixelEffectBase.h:158-167 | with 32-bit sizes 37837 x 37838 x 1 reaches a copying state with 61922 bytes |
| `PixelEffects.GeometryFollows` | src/modules/lights/effects/PixelEffectBase.h:141-150 | granted or not, the effect has the geometry asked for last |
| `PixelEffects.NoPixelsUntilChange` | src/modules/lights/effects/PixelEffectBase.h:65-71 | without a pixel array, denied or torn down, polls at the same geometry ask for nothing |
| `PixelEffects.DeniedSlotStaysDenied` | src/modules/lights/effects/PixelEffectBase.h:151-156 | a refused slot is not asked for again at the same geometry, however many requests follow |
| `PixelEffects.DeniedSlotFromBoot` | src/modules/lights/effects/PixelEffectBase.h:151-170 | from boot: pixels granted, slot refused, and no later request at that geometry makes the effect copy |
| `PixelEffects.CopiesAfterAllocate` | src/modules/lights/effects/PixelEffectBase.h:141-170 | after a request the effect copies exactly when both allocations were granted and not empty, or none was needed and it could before |
| `PixelEffects.PixelEffect.Allocate` | src/modules/lights/effects/PixelEffectBase.h:141-170 | the real arrays follow the size machine, new pixels are zero, the buffer object is kept or new |
| `PixelEffects.PixelEffect.Loop1s` | src/modules/lights/effects/PixelEffectBase.h:65-71 | only a changed geometry reallocates |
| `PixelEffects.PixelEffect.Loop20ms` | src/modules/lights/effects/PixelEffectBase.h:73-85 | slot and pixels equal the rendered frame and one publish is added exactly when a copy runs |
| `PixelEffects.PixelEffect.CopyOut` | src/modules/lights/effects/PixelEffectBase.h:79-84 | at every geometry the copied bytes are the whole pixel array and the whole slot |
| `PixelEffects.PixelEffect.Teardown` | src/modules/lights/effects/PixelEffectBase.h:87-96 | the buffer is dead, pixels and buffer are gone |
| `DataRegistries.DataRegistry.Declare` | src/core/DataRegistry.h:50-69 | fails on non-null arguments only for a new id in a full table; the returned slot holds the entry |
| `DataRegistries.DataRegistry.Undeclare` | src/core/DataRegistry.h:72-80 | the first entry with the buffer is swap-removed, the others stay |
| `DataRegistries.DataRegistry.Resolve` | src/core/DataRegistry.h:84-91 | lookup in the map the array stands for; nothing for a null or empty id |
| `DataRegistries.DeclareIsUpdate` | src/core/DataRegistry.h:50-69 | declaring is map update, refused only for a new key in a map of 16 |
| `DataRegistries.SwapRemovesOneKey` | src/core/DataRegistry.h:75-76 | despite the swap exactly the removed slot's key leaves the map |
| `DataRegistries.UndeclareDropsBuffer` | src/core/DataRegistry.h:71-80 | all entries of a buffer are dropped exactly when it stood under at most one id |
| `DataRegistries.SharedBufferSurvives` | src/core/DataRegistry.h:72-80 | a buffer declared under two ids keeps one of them |
| `DataRegistries.SlotsRefineMap` | src/core/DataRegistry.h:50-80 | over every run in which a buffer is never declared under a second id the array is the map, one entry per id |
| `ByteOrder.RoundTrip` | src/pal/PalWs.h:224 | big-endian bytes read back to the number |
| `Sha1Digest.Sha1.CompressBuf` | src/pal/PalWs.h:142-159 | the in-place 80 rounds compute section 7 of FIPS 180-1 |
| `Sha1Digest.Sha1.Schedule` | src/pal/PalWs.h:143-147 | the filled array is the message schedule of the block |
| `Sha1Digest.Sha1.Update` | src/pal/PalWs.h:160-171 | after feeding any chunk the state stands for the whole message so far, however it was cut |
| `Sha1Digest.Sha1.Finish` | src/pal/PalWs.h:172-184 | the digest is the one FIPS 180-1 sections 4 and 7 give for everything fed |
| `Sha1Example.AbcDigest` | src/pal/PalWs.h:142-184 | the digest of "abc" is the one of FIPS 180-1, appendix A, so every constant and rotation is the standard's |
| `Sha1Digest.AbsorbMore` | src/pal/PalWs.h:160-171 | absorbing blocks one stretch after another equals absorbing them at once |
| `Sha1Digest.OneBlockLeft` | src/pal/PalWs.h:173-177 | with at most 55 bytes left over, one closing block completes the padded message |
| `Sha1Digest.TwoBlocksLeft` | src/pal/PalWs.h:174-177 | with 56 to 63 left over, two closing blocks do |
| `WsCodec.Base64` | src/pal/PalWs.h:187-201 | the three-byte loop writes the RFC 4648 encoding |
| `WsCodec.DecodeEncode` | src/pal/PalWs.h:187-201 | decoding by RFC 4648 section 4 gives the bytes back |
| `WsCodec.EncodeDecode` | src/pal/PalWs.h:187-201 | the strict decoder accepts nothing but encodings |
| `WsCodec.EncodeLength` | src/pal/PalWs.h:190 | four characters per started group of three bytes |
| `WsCodec.AlphabetIsTable1` | src/pal/PalWs.h:188 | the letter table is the standard's, and padding is none of its letters |
| `WsCodec.Frame` | src/pal/PalWs.h:213-228 | the pushed bytes are the frame's wire form |
| `WsCodec.FrameRoundTrip` | src/pal/PalWs.h:213-228 | for every payload below 2^63 bytes RFC 6455 section 5.2 parses the frame to the same opcode and payload and stops at its end |
| `WsCodec.StreamRoundTrip` | src/pal/PalWs.h:213-228 | frames sent back to back parse to the same messages |
| `WsCodec.FrameIsCanonical` | src/pal/PalWs.h:216-225 | a parser that demands the shortest length form accepts only frames written this way |
| `WsCodec.AcceptKey` | src/pal/PalWs.h:203-210 | the answer decodes to the SHA-1 digest of key and GUID and has 28 characters |
| `Fluids.SweepIsGaussSeidel` | src/modules/lights/effects/FlowFluidEffect.h:164-171 | one sweep solves the Gauss-Seidel equation in every cell: new values left and above, old ones right and below |
| `Fluids.DiffusedWithin` | src/modules/lights/effects/FlowFluidEffect.h:176-181 | diffusion creates no value outside the range of field and source (which contains 0 if a border is zeroed) |
| `Fluids.SolvedWithin` | src/modules/lights/effects/FlowFluidEffect.h:161-174 | the same for any number of sweeps |
| `Fluids.TracedWithin` | src/modules/lights/effects/FlowFluidEffect.h:190-200 | a traced cell is in range and between the field's extremes, for any velocity and any size from 1x1 on |
| `Fluids.AdvectedWithin` | src/modules/lights/effects/FlowFluidEffect.h:183-203 | advection creates no value outside the field's range |
| `FlowFluids.FlowFluid.SetBnd` | src/modules/lights/effects/FlowFluidEffect.h:153-159 | exactly the border cells of the component are zeroed |
| `FlowFluids.FlowFluid.LinSolve` | src/modules/lights/effects/FlowFluidEffect.h:161-174 | the in-place loops compute five sweeps |
| `FlowFluids.FlowFluid.Diffuse` | src/modules/lights/effects/FlowFluidEffect.h:176-181 | the array holds the diffused field; a non-positive strength copies |
| `FlowFluids.FlowFluid.Advect` | src/modules/lights/effects/FlowFluidEffect.h:183-203 | the array holds the advected field, every index in range |
| `FlowFluids.FlowFluid.RenderDye` | src/modules/lights/effects/FlowFluidEffect.h:97-120 | each channel becomes its diffused, advected, dissipated value and the pixels its bytes |
| `FlowMeanings.AdvectedCell` | src/modules/lights/effects/FlowFluidEffect.h:183-203 | a cell off the border gets the field's value, interpolated between the cells around it, at x - dt * min(w, h) * u, y - dt * min(w, h) * v, held off the border; a border cell of a velocity component gets 0 |
| `FlowMeanings.AffineIsCarried` | src/modules/lights/effects/FlowFluidEffect.h:190-200 | a field p + q x + r y is carried to its value at that position |
| `FlowMeanings.WholeCellsMove` | src/modules/lights/effects/FlowFluidEffect.h:190-200 | a displacement by k and l whole cells gives d[x, y] = d0[x - k, y - l] |
| `FlowMeanings.DiffusionEquation` | src/modules/lights/effects/FlowFluidEffect.h:161-181 | diffusion is five rounds of (1 + 4a) s = x0 + a (left + right + up + down), border zeroed, with a = dt * diff * min(w, h)^2; a rate of 0 or below leaves the source, border zeroed |
| `FlowMeanings.DyeFlows` | src/modules/lights/effects/FlowFluidEffect.h:97-117 | in a frame dye first spreads by that equation and then flows down the velocity, the share fd of it staying |
| `FlowFluids.DyeStepWithin` | src/modules/lights/effects/FlowFluidEffect.h:97-117 | a frame keeps dye non-negative and at most its old maximum times the dissipation factor |
| `FlowFluids.DyeStaysBounded` | src/modules/lights/effects/FlowFluidEffect.h:97-117 | over every run no cell exceeds the level at which a frame loses what the emitter adds |
| `FlowFluids.To8` | src/modules/lights/effects/FlowFluidEffect.h:278-282 | 0 from 0 down, 255 from 1 up, between them within one half of 255 times the level |
| `WifiStations.WifiSta.Loop1s` | src/modules/system/WifiStaModule.h:61-114 | the tick computes the step of the state machine and its radio commands |
| `WifiStations.WifiSta.OnUpdate` | src/modules/system/WifiStaModule.h:116-149 | so does each control edit |
| `WifiStations.WifiSta.StartConnect` | src/modules/system/WifiStaModule.h:260-282 | an attempt, or without an ssid only a changed status |
| `WifiStations.WifiSta.MaybeRunPromotionProbe` | src/modules/system/WifiStaModule.h:232-258 | the probe part of the step |
| `WifiStations.RungMoves` | src/modules/system/WifiStaModule.h:87-91 | the rung stays in -1..4, goes to -1 exactly on a promotion or an edit of the user's power, down one exactly on a timeout above the last rung |
| `WifiStations.AttemptPower` | src/modules/system/WifiStaModule.h:267-277 | an association starts exactly on the listed occasions and is followed by the user's power if set, else the rung's, else nothing |
| `WifiStations.FailsAfterAllRungs` | src/modules/system/WifiStaModule.h:82-98 | with a radio that never connects an attempt begun at rung k fails with timeout 5 - k and not before |
| `WifiStations.FailsByDeadline` | src/modules/system/WifiStaModule.h:82-98 | and by a time that depends only on the rungs left and the gap between ticks, clock wraps included |
| `WifiStations.ProbeEnds` | src/modules/system/WifiStaModule.h:243-257 | a probe ends exactly on an edit, a promotion, or a link up at the start of a tick and down inside it |
| `WifiStations.PromotionIsGenuine` | src/modules/system/WifiStaModule.h:252-256 | at a promotion the radio is at full power exactly when no association began since the probe did, or the user's own power is full power |
| `WifiStations.DroppedLinkIsPromoted` | src/modules/system/WifiStaModule.h:243-257 | a run of ticks from boot in which the link drops between ticks and success is declared at 17 dBm |
| `WifiStations.ProbeWaitsAnHour` | src/modules/system/WifiStaModule.h:236-237 | a scheduled probe waits its hour exactly when the clock does not wrap within it, else it is due at once; after the hour it is due unless the scheduled reading is 0 |
| `WifiStations.UserPowerHolds` | src/modules/system/WifiStaModule.h:158-160 | with a user power set, another power is commanded exactly when a probe starts or restores a rung |
| `WifiStations.ProbeOverridesUser` | src/modules/system/WifiStaModule.h:158-160 | a run from boot in which that happens |
| `WifiHistories.ChoicesKept` | src/modules/system/WifiStaModule.h:116-149 | in every run switch, ssid and power are those of the last edit, or the booted ones; a power outside 0..21 counts as none |
| `WifiHistories.PrefAppliedLive` | src/modules/system/WifiStaModule.h:142-147 | an edited power is in force at once on a connected radio, otherwise nothing is sent |
| `WifiHistories.OffIsOff` | src/modules/system/WifiStaModule.h:117-127 | in every run from boot: when not enabled, no association stands after the last disconnect and nothing is connecting; the radio is in use exactly when an attempt was made since the last switching off |
| `WifiHistories.StatusAlwaysTells` | src/modules/system/WifiStaModule.h:61-149 | in every run from boot "connecting" is shown only while connecting, "disabled" only when disabled, and a disabled station shows that or the missing ssid |
| `WifiHistories.AttemptsApart` | src/modules/system/WifiStaModule.h:82-113 | in every run from boot an attempt started by a tick comes more than 15 s after a running one and at least 30 s after a finished one, in true time across clock wraps |
| `WifiHistories.ProbesAnHourAfter` | src/modules/system/WifiStaModule.h:234-250 | in every run from boot a probe that starts was scheduled by a failed probe or a connection at reduced power, an hour ago or more unless the clock wraps within the hour after that |
| `WifiHistories.NextProbeAfterFailure` | src/modules/system/WifiStaModule.h:243-250 | a failed probe restores the rung's power, and in any run after it the next probe starts an hour later or more unless one is scheduled in the hour before a wrap |
| `Columns.Collect` | src/frontend/app.js:1848-1866 | roots are the top-level modules of the list; between two roots there is an edge exactly if a text control of a module under the one holds the id of a module under the other, at most 64 levels up; none to itself, none twice, incoming ones counted |
| `Columns.DrawnIsRead` | src/frontend/app.js:1852-1858 | the controls that draw an edge between two roots are those |
| `Columns.ClimbEndsAbove` | src/frontend/app.js:1839-1843 | the guarded climb from a module ends at a root exactly when parent ids lead from the module to that root in at most 64 steps |
| `Columns.ClimbReachesRoot` | src/frontend/app.js:1839-1843 | the guarded climb ends at a root exactly when the nesting above is at most 64 deep |
| `Columns.Assign` | src/frontend/app.js:1871-1881 | the loop ends; each root leaves the queue at most once and behind all its sources, the others each wait for one, and every column is one past the furthest handled source |
| `Columns.ColumnsAreLongestPaths` | src/frontend/app.js:1868-1881 | a root is handled exactly when no cycle feeds it, and then its column is its longest path from a source |
| `Columns.AcyclicGoesRight` | src/frontend/app.js:1868-1881 | without cycles every root is handled and every edge goes strictly right |
| `Columns.HandledGoesRight` | src/frontend/app.js:1877-1880 | in any graph an edge out of a handled root goes strictly right |
| `Columns.Layout` | src/frontend/app.js:1848-1881 | collection and columns together give longest paths in the graph of the list wherever no cycle lies upstream |
| `ArtnetOutputs.ArtnetOut.SendFrame` | src/modules/lights/ArtnetOutModule.h:67-82 | of a frame cut to a 32-bit length n: ceil(n / 510) packets, the k-th parsing as ArtDmx to universe first + k modulo 256 and the k-th piece |
| `ArtnetOutputs.WholeFrameArrives` | src/modules/lights/ArtnetOutModule.h:68-82 | the pieces received make the frame exactly when its length is below 2^32 |
| `ArtnetOutputs.ArtnetOut.PackHeader` | src/modules/lights/ArtnetOutModule.h:94-105 | the 18 header bytes |
| `ArtnetOutputs.PacketParses` | src/modules/lights/ArtnetOutModule.h:94-105 | a header and its data parse to universe and data |
| `ArtnetOutputs.PiecesMakeTheFrame` | src/modules/lights/ArtnetOutModule.h:72-82 | the pieces in order are the frame, none empty or above 510 bytes |
| `ArtnetOutputs.PixelsStayWhole` | src/modules/lights/ArtnetOutModule.h:89 | each RGB pixel lies in one piece |
| `ArtnetOutputs.UniversesDistinct` | src/modules/lights/ArtnetOutModule.h:71-81 | universe numbers are distinct exactly for at most 256 packets |
| `ArtnetOutputs.LengthsAreEven` | src/modules/lights/ArtnetOutModule.h:73-76 | all data lengths are even exactly when the frame's is |
| `GridLayouts.MapIsInvolution` | src/modules/lights/GridLayoutModule.h:54-63 | the map undoes itself and stays in plane and row |
| `GridLayouts.RowsTurn` | src/modules/lights/GridLayoutModule.h:51-63 | with serpentine wiring even rows run left to right and odd rows right to left, else every pixel is in its place; the first pixel of a plane stays put |
| `GridLayouts.MapIsPermutation` | src/modules/lights/GridLayoutModule.h:47-63 | on the panel's pixels the map stays inside and hits each pixel exactly once |
| `GridLayouts.Map32IsMap` | src/modules/lights/GridLayoutModule.h:54-63 | the 32-bit computation is the map exactly when the result fits, in particular on panels of at most 2^32 pixels |
| `GridLayouts.WireFollowsThePanel` | src/modules/lights/GridLayoutModule.h:51-63 | with serpentine wiring neighbours on the wire are neighbours on the panel |

## Left out

- ModuleManagers.ModuleManager.ReorderChildrenOf: requests that fool the 8-bit count are excluded, by the exact condition of `ChildOrders.CounterDecidesExactly`, because the manager's views disagree after them.
- ModuleManagers.ModuleManager.Reparent: the new parent must lie outside the moved subtree and have fewer than 252 children, neither of which the code tests; after a call outside that the links are no tree.
- ModuleManagers.ModuleManager.Nest: the same two conditions.
- StateStores.AddMissing: lists a snapshot wrote; entries edited by hand, duplicate ids and parent cycles in the file are not modelled.
- StateStores.RelinkAll: the same lists.
- StateStores.LoadModules: the same lists.
- RootReorders.ReorderRoots: only the resulting owner list; the fate of the dropped modules is outside the model, and so is the order the header promises.
- StateStores.SaveAndReload: settings files, control values beyond the parent input, and modules nested under a state store; the booted manager holds top-level modules only, and head modules found again keep their type.
- Module hooks (setup, onUpdate, onChildrenReady, loop, teardown bodies) are events, not code; adding never fails.
- Schedulers.CorePass: the forest does not change during the pass, disabled modules are entered but run no hook, and tick counts are unbounded where the source has 32 bits.
- CoreLoops.CoreLoop: the same, over a run; times are those of the clock readings at the top of the passes.
- Schedulers.FiringsApart: the spacing is between the clock readings at the top of the passes.
- DataBuffers.DataBuffer.Invalidate: what a cached reader sees after the producer deletes the buffer is outside the model.
- DataBuffers.DataBuffer.Publish: never called on a dead buffer, as the source's comment demands.
- FrameProtocol.EveryDeliveryIsWhole: granted allocations and sequentially consistent steps.
- ReaderRuns.Drive: one allocation epoch of a live buffer; each call is one atomic step.
- PixelEffects.PixelEffect.Loop20ms: a frame is rendered only into an array that holds it, the exact condition of `PixelEffects.CopySizes`; resolving the layout module is an input, and of a block that is no whole number of pixels only the whole pixels are arrays.
- DataRegistries.DataRegistry.Declare: ids are compared by content; that a stored id points into its producer's memory is not modelled.
- Sha1Digest.Sha1.Finish: beyond 2^64 bits the length field wraps as in the code; the standard defines no digest there.
- WsCodec.Base64: bytes are numbers and the shifts of the 24-bit group are written as division and addition.
- Floating-point rounding in the fluid kernels; projection, vorticity, velocity dissipation, the emitter's trigonometry, noise and colour code.
- WifiStations.WifiSta.Loop1s: displayed address, signal strength and power, and the credentials file; the radio's default power after an association is the one the source names.
- Columns.Collect: ids are unique; a consumer nested more than 64 deep is listed under its source but, being no root, has no counters; the alignment hints kept beside the edges, and all drawing, are left out.
- ArtnetOutputs.ArtnetOut.SendFrame: the UDP send itself; the packets sent are the result.
- PreviewModule, HTTP and WebSocket transport, JSON, filesystem, sockets, RTOS, the rest of the web page and the tooling.
- FlowFluids.FlowFluid.constructor: the field arrays are granted, and 4 * w * h bytes fit a `size_t`.
- GridLayouts.MapIsPermutation: stated over unbounded indices; `GridLayouts.Map32IsMap` says where the 32-bit code agrees.
