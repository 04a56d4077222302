# A verified model of the SmallFW runtime

SmallFW is an Objective-C runtime. This project states in Dafny what its hardest parts compute and
proves what they are for. `dafny verify dfyconfig.toml` covers all of it.

The model follows the C code's own form. Where the code works on fields, tables, buffers or cursors,
there is a class or a method with loops; each is proved against a function of values, and the
properties below are proved about those functions. Where several layers say the same thing in
different ways, one is the definition and the others refine it.

## The parts

- **Reference counting** (`Arc`, `ArcInvariant`, `ArcLog`, `ArcFate`, `ArcStore`, `ArcRun`, `ArcLives`, `ArcAliases`,
  `ArcRuntime`). Retain, release with its recursive clearing cascade, strong stores, autorelease pools and value
  objects embedded in their owner, which any ivar of any object may alias. `Arc` is the cascade as a terminating
  recursive function; the measure is the number of non-nil strong slots. `ArcInvariant` gives the invariant that
  also holds halfway through a cascade: `ext` counts references outside the heap, `dying` has the objects whose
  destruction is suspended further up the call stack, some of which may be met again. `ArcLog` says what a cascade
  writes to the log of finalized objects. `ArcFate` compares what dies with a definition that knows no order, the
  least closed set, and shows that only an object on a loop of slots inside that set is met again. `ArcStore` has
  strong stores and exactly when overwriting an owner ivar is safe, `ArcRun` whole runs of a client, `ArcLives` what
  each operation of a run destroys and that every life ends once, `ArcAliases` the inputs on which aliases break
  what one would expect, and `ArcRuntime` the entry points with their one-entry header cache. Addresses are indices
  into the heap, because the runtime reuses the address of a freed block for an unrelated object; Dafny objects
  would hide that.
- **Parent groups** (`GroupSpec`, `GroupRuntime`, `GroupView`, `DefaultHeaders`, `CompactHeaders`,
  `InlineHeaders`, `GroupLockstep`). A group is first a list of members with a log of allocator calls;
  `GroupRuntime` refines it to linked headers with a head and a count; the three builds of the header
  then refine those fields to a tagged reuse of the root's own fields, an out-of-line record, and a cold
  record that holds the state itself.
- **Exception tables** (`Leb`, `Lsda`, `LsdaWriter`). LEB128 numbers (section 7.6 of DWARF 5) of any length,
  encoded pointers (section 10.5 of LSB 5.0 Core), and the call-site and action-chain search against an
  abstract table, for any bytes that lay the table out and in particular for a serialiser's.
- **Type encodings** (`EncodingSyntax`, `EncodingParser`, `EncodingLanguage`, `EncodingLoops`, `MethodLanguage`, `TokenSkipper`,
  `TypeLayout`). A printer for type trees and methods, the parser as its inverse in both directions, the dispatcher's
  own bracket-counting reader and where the two agree, and the layouts it computes in wrapping sizes.
- **Loader and dispatch** (`ClassMap`, `Selectors`, `Dispatch`, `ClassLayout`). The open-addressing class map
  against a finite map, selectors frozen to dense slots, per-class tables against the superclass walk,
  and memoised layout against a pure recursive one.
- **Block reference counts** (`Blocks`), thread steps interleaved in any order.
- **Strings** (`Utf`): UTF-8 against sections 3 and 4 of RFC 3629, UTF-16 against sections 2.1 and 2.2 of
  RFC 2781.
- **Small-block allocator** (`Allocator`, `AllocatorRun`): slabs, free lists threaded through the blocks themselves, the
  zeroing that the object initialiser counts on, and runs of a client whose blocks behave like memories of their own.

## Where a promise does not hold as one would expect

- Tables and superclass walk differ for a class with two methods for one selector
  (`Dispatch.TwoMethodsDiffer`); `Dispatch.LookupIsWalk` says exactly when they agree.
- The inline layout's count getter falls back to the state of the object asked about when the stored count is zero.
  `InlineHeaders.Headers.LiveCount` says exactly when it answers the stored count, `InlineHeaders.StaleZeroIsMisread`
  shows a state in which it does not, and `GroupLockstep.Ready` that no run reaches one.
- Runtime/src/SmallFW/Object.h:94-96 binds an embedded object to its owner ivar. An alias shortens that life: when an
  object that aliases it dies, the embedded object goes too, under its live parent (`ArcAliases.AliasEndsTheOwned`).
  `ArcFate.DiesIff` says exactly when an embedded object goes.
- A store over the owner ivar of an embedded object can finalize it twice under a parent that stays
  (`ArcAliases.OverwrittenIsMetAgain`), take the parent and its block along while the object is being destroyed in it
  (`ArcAliases.OverwrittenOutlivesItsBlock`), or do both (`ArcAliases.OverwrittenTakesItsParent`). `ArcStore.StoreIsSafeIff`
  gives the exact condition under which it does neither. Other embedded objects that die with it can be finalized twice
  as well (`ArcAliases.AnotherIsMetAgain`); `ArcFate.LooplessFinalizesOnce` gives a condition that rules it out, and
  `ArcAliases.OrderDecides` shows that none that speaks only of who holds whom is exact.
- When no slab can be mapped, a small block comes from calloc with its own size, but a free still takes it for a
  block of its bin. `Allocator.RegionFitsIff` says for which sizes it is one.
- A string with a lone surrogate has a UTF-8 form that is not UTF-8 (`Utf.LoneSurrogateIsLost`);
  `Utf.RoundTrip` says exactly which strings survive.
- The two readers of type encodings differ on the width of a bit-field and on signed frame sizes
  (`TokenSkipper.BitFieldsDiffer`, `TokenSkipper.SignedFramesDiffer`). `TokenSkipper.SkipsPrinted` says exactly on which
  types they agree, and `TokenSkipper.CollectedAreParsed` what the dispatcher collects with and without a sign.
- The repository's README.md:59 says a parent is kept alive while its children are referenced. In the code it is the
  parent's memory that is kept: the parent object itself is disposed when its own count reaches zero, and its
  block is freed with the group (`GroupSpec.EarlierDeathHoldsTheGroup`, `GroupSpec.LastDeathFreesTheGroup`).

## Model

| member | source | states |
|---|---|---|
| ArcRun.CountsAreExact | Runtime/src/arc.c:225-702 | After every legal run from an empty heap, with embedded objects aliased from any slot, the count of each live ordinary object is what callers own plus the strong ivar slots holding it plus its pool entries, and is never zero; whatever callers own or pools hold of counted objects is live; a strong slot never dangles, except that the address of embedded storage may be stale. |
| ArcRun.EmbeddedIsOwned | Runtime/src/arc.c:168-182 | After every legal run, embedded storage is live if and only if its owner ivar holds it; its count is then one and retain and release do nothing to it. |
| ArcLives.EveryLifeEndsOnce | Runtime/src/arc.c:225-702 | Over every legal run, each object that began to live at an address lives on or its destruction has begun; and that exactly once, as long as no operation destroys an embedded object at that address which slots inside what it destroys lead back to. For addresses that only ordinary objects have had there is no condition. |
| ArcLives.NothingIsLeftBehind | Runtime/src/arc.c:349-428 | Over every legal run in which no operation destroys an embedded object that slots inside what it destroys lead back to, nor a parent by a store over its owner ivar, no object is disposed before everything that lies in it is. |
| ArcLives.ReleaseDestroysTheAbandoned | Runtime/src/arc.c:467-500 | A release destroys exactly the least set closed under "every reference comes from the set", under the values embedded in its members and under the embedded values its members alias; outside it only owner ivars of members become nil; each member is finalized, and once and before its parent is disposed unless slots inside the set lead from it back to it. Cycles are therefore not collected. |
| ArcLives.PopDestroysTheAbandoned | Runtime/src/arc.c:627-650 | A pool pop, over all its entries together, destroys exactly the least such set that only they kept. |
| ArcLives.PopIsReleases | Runtime/src/arc.c:627-650 | Over a whole world, a pop with any token is the releases of the entries above it, newest first, each a legal release by whoever takes the entry; a token above the stack pops nothing. |
| ArcLives.OverwritingReleasesTheOld | Runtime/src/arc.c:677-702 | A strong store over an ordinary value destroys exactly what the lost reference leaves without references. |
| ArcLives.OverwritingDestroysTheOwned | Runtime/src/arc.c:677-702 | Storing another value over the owner ivar of an embedded object disposes it, whatever slots alias it, together with exactly what has to go with it. |
| ArcLives.OverwrittenStorageIsReusable | Runtime/src/loader.c:1802-1872 | After nil is stored over the owner ivar the same storage can be given to a new embedded object if and only if some closed set has the old object and not its parent. |
| ArcStore.StoreIsSafeIff | Runtime/src/arc.c:677-702 | A store over an owner ivar finalizes the old object exactly once and leaves a given object, its parent for one, alive if and only if, once the slot is written, some closed set has the old object and not the given one and no member of it holds the old object. |
| ArcStore.FinalizedOnceIff | Runtime/src/arc.c:225-283 | An overwritten embedded object is finalized exactly once if and only if nothing that dies with it held it. |
| ArcStore.StoreOverOwned | Runtime/src/arc.c:677-702 | The heap-level form: a store over an owner ivar destroys the embedded object and only what it must. |
| ArcStore.StoreOverCounted | Runtime/src/arc.c:677-702 | The same for a store over an ordinary value. |
| ArcStore.QuietStore | Runtime/src/arc.c:168-182 | Overwriting nil, static storage, a stale alias or an alias of a live embedded object destroys nothing and leaves that object to its owner ivar. |
| ArcStore.StoreWrites | Runtime/src/arc.c:677-702 | As long as the object stored into lives, its slot has the stored value, unless that is embedded there and died in the same store; every other slot of a survivor is as it was, but for embedded objects of its own that died. |
| ArcStore.MetAgain | Runtime/src/arc.c:225-283 | An embedded object that something dying with it holds is finalized more than once. |
| ArcFate.DiesIff | Runtime/src/arc.c:225-283 | After a cascade an ordinary object is gone if and only if nothing outside refers to it and everything that held it is gone, an embedded one if and only if its parent or another object that held it is gone, and static storage never. |
| ArcFate.LooplessFinalizesOnce | Runtime/src/arc.c:225-283 | If some closed set has no embedded object that slots inside the set lead back to, everything that dies is finalized exactly once. |
| ArcFate.SurvivorsAreHeld | Runtime/src/arc.c:225-283 | Whatever survives a cascade is held by a caller, a pool or something that survives, and no embedded object survives that the disposed owned or aliased: the disposed set is closed. |
| ArcFate.ReleaseLeastDied | Runtime/src/arc.c:467-500 | From any heap with exact counts, spending one outside reference destroys exactly the least closed set. |
| ArcAliases.AliasEndsTheOwned | Runtime/src/arc.c:225-283 | An input on which an embedded object does not live as long as its owner ivar holds it: releasing another object that aliases it destroys it under its live parent. |
| ArcAliases.OverwrittenIsMetAgain | Runtime/src/arc.c:677-702 | An input on which a store over an owner ivar finalizes the old object twice under a parent that a caller holds. |
| ArcAliases.OverwrittenOutlivesItsBlock | Runtime/src/arc.c:677-702 | An input on which the old object held the last reference to its own parent, which is disposed, and its block given back, while the old object is still being destroyed inside it. |
| ArcAliases.OverwrittenTakesItsParent | Runtime/src/arc.c:677-702 | An input on which the old object held the last reference to its own parent, which goes with it, and is finalized twice through an alias in the parent. |
| ArcAliases.AnotherIsMetAgain | Runtime/src/arc.c:677-702 | An input on which the old object is finalized once and the parent lives, but another embedded object, on a loop among what dies, is finalized twice. |
| ArcAliases.OrderDecides | Runtime/src/arc.c:243-279 | Two inputs in which the same objects hold each other and only the order of two ivars differs: on one everything is finalized once, on the other an object is twice. So no condition on who holds whom is exact for the other objects. |
| ArcRun.RunKeeps | Runtime/src/arc.c:547-702 | The heap invariant holds after every legal run of allocation, retain, release, strong store, autorelease, pool push and pool pop. |
| ArcRun.StepKeeps | Runtime/src/arc.c:547-702 | Each of the nine client operations keeps the heap invariant; a store may put any live value into any live object. |
| ArcRun.NewCellKeeps | Runtime/src/loader.c:1749-1779 | A new object at an address nobody holds starts with count one and disturbs no other count, slot or owner, even where a dead object was. |
| ArcRun.NewEmbeddedKeeps | Runtime/src/loader.c:1802-1872 | Placing a value object in hidden storage and its owner ivar keeps the invariant, including under stale aliases anywhere. |
| ArcRun.PopKeeps | Runtime/src/arc.c:627-650 | Popping a pool takes exactly the references among its entries away; entries that are embedded objects or static storage are none, live or not. |
| ArcRun.PopReleasesNewestFirst | Runtime/src/arc.c:646-649 | A pop leaves the heap that releasing the entries one after the other leaves, from the newest down to the marker. |
| ArcRun.PopFinalizesNewestFirst | Runtime/src/arc.c:646-649 | For distinct entries with one reference and no slots, what a pop adds to the log of finalized objects is the popped entries in reverse. |
| ArcRun.AutoreleaseDefersRelease | Runtime/src/arc.c:593-606 | With an open pool and room in it, an autorelease changes no object, and followed by the pop it leaves what a release leaves. |
| ArcRun.AutoreleaseOutsidePools | Runtime/src/arc.c:593-606 | Without a pool, or without room in it, an autorelease changes nothing. |
| ArcRun.PopUndoesPush | Runtime/src/arc.c:608-650 | A pool popped right after it was pushed leaves everything as it was. |
| ArcRun.ReleaseUndoesRetain | Runtime/src/arc.c:547-591 | A retain and a release of the same live object cancel, whatever kind it is of. |
| ArcStore.RetainKeeps | Runtime/src/arc.c:301-312 | A retain of a counted object adds one reference its caller owns; of any other live object it changes nothing. |
| ArcStore.StoreKeeps | Runtime/src/arc.c:677-702 | A strong store of any live value into any live object keeps every count exact, also when it destroys an embedded object together with the block it lies in. |
| ArcInvariant.ReleaseKeeps | Runtime/src/arc.c:467-500 | A release spends one outside reference and keeps the invariant, in the middle of other destructions too. |
| ArcInvariant.LastRelease | Runtime/src/arc.c:467-500 | A release that finds a count of at most one finds exactly one: no slot, caller or pool holds the object and it is not being destroyed already. |
| ArcInvariant.DestroyKeeps | Runtime/src/arc.c:430-465 | Destroying an object, with the whole cascade below it and even if it is met again there, leaves it disposed and keeps the invariant for everything that is not being destroyed. |
| ArcInvariant.ClearKeeps | Runtime/src/arc.c:225-283 | The clearing loop leaves the object's slots all nil and the invariant intact although each turn may destroy other objects. |
| ArcInvariant.DropKeeps | Runtime/src/arc.c:225-283 | What the loop does with one value, destroying a live embedded one from owner ivar or alias and releasing any other, keeps the invariant. |
| ArcInvariant.DisposeKeeps | Runtime/src/arc.c:349-428 | Disposal of an emptied object restores the invariant without it. |
| ArcInvariant.BuryKeeps | Runtime/src/arc.c:349-428 | Marking it disposed leaves no live embedded object behind in its storage but one being destroyed itself, and no counted slot pointing at it. |
| ArcFate.ReleaseConfined | Runtime/src/arc.c:467-500 | The cascade of a release changes nothing outside any closed set but owner ivars of its members, disturbs no suspended destruction, and finalizes once, before its parent is disposed, each object that no loop of slots inside the set comes back to. |
| ArcFate.DestroyConfined | Runtime/src/arc.c:430-465 | The same for a destruction in progress. |
| ArcFate.ClearConfined | Runtime/src/arc.c:225-283 | The same for the clearing loop from any slot on. |
| ArcFate.DropConfined | Runtime/src/arc.c:225-283 | The same for one value taken out of a slot. |
| ArcLog.ReleaseTraced | Runtime/src/arc.c:467-500 | From any heap at all, the log of a release gains exactly the objects that died, every live embedded object taken out of a slot is one of them, and only objects whose parent died are left behind by it. |
| ArcLog.ReleaseSpares | Runtime/src/arc.c:225-283 | From any heap, a cascade takes nothing out of an object that survives it, other than embedded objects of its own that died. |
| ArcLog.ReleasedGoesFirst | Runtime/src/arc.c:467-500 | If a release destroys anything, it begins with the object released. |
| ArcLog.DestroyTraced | Runtime/src/arc.c:430-465 | The same for a destruction. |
| ArcLog.ClearTraced | Runtime/src/arc.c:225-283 | The same for the clearing loop. |
| ArcLog.DropTraced | Runtime/src/arc.c:225-283 | The same for one value, which is dead afterwards if it was a live embedded object. |
| Arc.Release | Runtime/src/arc.c:467-500 | A release never revives an object or adds a reference: slots only become nil, cells only die, and the number of non-nil slots does not grow, which is why the cascade terminates. |
| Arc.ClearFrom | Runtime/src/arc.c:225-283 | The clearing recursion terminates for the same reason: a slot is nil before its value is released. |
| ArcRuntime.Runtime.HeaderFromHeapCandidate | Runtime/src/arc.c:90-114 | The cached lookup answers what the uncached one does, and the cache stays coherent. |
| ArcRuntime.Runtime.RetainKnown | Runtime/src/arc.c:301-312 | Retain of a live object with a known header. |
| ArcRuntime.Runtime.Retain | Runtime/src/arc.c:547-568 | objc_retain, cached fast path included, has the effect of the uncached retain. |
| ArcRuntime.Runtime.Release | Runtime/src/arc.c:570-591 | objc_release, cached fast path included, has the effect of the uncached release and of its whole cascade, with a coherent cache after it. |
| ArcRuntime.Runtime.ReleaseKnown | Runtime/src/arc.c:467-500 | Release of a live object with a known header. |
| ArcRuntime.Runtime.Finish | Runtime/src/arc.c:430-465 | The end of an object: its ivars are cleared unless its class releases trivially, then it is disposed. |
| ArcRuntime.Runtime.ClearIvars | Runtime/src/arc.c:225-283 | The in-place loop over the object-ivar offsets is the recursive definition. |
| ArcRuntime.Runtime.DropSlot | Runtime/src/arc.c:225-283 | One turn: the slot is nil before its old value is destroyed or released. |
| ArcRuntime.Runtime.Dispose | Runtime/src/arc.c:349-428 | Disposal empties the cache of the object, clears the owner ivar of an embedded one and marks it disposed. |
| ArcRuntime.Runtime.StoreStrong | Runtime/src/arc.c:677-702 | objc_storeStrong on an ivar slot: retain the new value, store it, release the old one. |
| ArcRuntime.Runtime.Autorelease | Runtime/src/arc.c:593-606 | An entry is recorded exactly for a live object while a pool is open and memory suffices. |
| ArcRuntime.Runtime.PoolPush | Runtime/src/arc.c:608-625 | The token is the stack height whether or not a marker could be recorded. |
| ArcRuntime.Runtime.PoolPop | Runtime/src/arc.c:627-650 | A pop with any token empties the stack down to it as the recursive definition does, whose order `ArcRun.PopReleasesNewestFirst` states, and drops the top marker only if it matches. |
| ArcRuntime.Perform | Runtime/src/arc.c:547-702 | Each entry point, header cache included, does to heap, pool and markers what the step of a client's run says. |
| ArcRuntime.PerformAll | Runtime/src/arc.c:547-702 | So over every legal run the runtime ends in the state of the abstract run, about which the theorems on counts and lives speak. |
| ArcRuntime.Runtime.InitHeader | Runtime/src/loader.c:1749-1779 | A new object, also at the address of a dead one, leaves the header cache coherent. |
| ArcRuntime.Runtime.AllocEmbedded | Runtime/src/loader.c:1802-1872 | The first compatible slot with a nil owner ivar and dead storage is used, and nothing changes when there is none. |
| ArcRuntime.FirstUsable | Runtime/src/loader.c:1802-1872 | The slot search stops at the first slot that can be used. |
| GroupSpec.EveryRun | Runtime/src/arc.c:285-428 | After every run of allocation, child allocation (failed ones too) and death: every block is given back at most once, with its own size and to its own allocator; what is not given back is exactly what is held; a disposed but held object is in a group with a live member. |
| GroupSpec.LastDeathFreesTheGroup | Runtime/src/arc.c:285-299 | The last death of a group frees each of its members once, in chain order, and touches nothing else. |
| GroupSpec.EarlierDeathHoldsTheGroup | Runtime/src/arc.c:349-428 | While another member lives, a death frees nothing. |
| GroupSpec.StepKeeps | Runtime/src/arc.c:349-428 | Every step keeps the group invariant. |
| GroupSpec.WithGroupKeeps | Runtime/src/object-header.c:912-979 | Making an ungrouped object the root of a group of one keeps it. |
| GroupSpec.LinkKeeps | Runtime/src/loader.c:1874-1925 | A new member at the head of the chain keeps it: each member is listed once and the root stays last. |
| GroupSpec.GiveBackKeeps | Runtime/src/loader.c:1874-1925 | A block that could not be linked is given straight back and the same blocks are held as before. |
| GroupSpec.DisposeKeeps | Runtime/src/arc.c:349-428 | A death keeps the invariant, whether the object is alone, one of several, or the last. |
| GroupSpec.FreeAllIs | Runtime/src/arc.c:285-299 | The freeing loop frees the chain's blocks, each once with its own size, and no other. |
| GroupRuntime.LiveInZero | Runtime/src/arc.c:349-428 | The count is zero exactly when no member is live. |
| GroupRuntime.InitRootRepresents | Runtime/src/object-header.c:912-979 | The header fields of a new root represent a group of one. |
| GroupRuntime.LinkRepresents | Runtime/src/loader.c:1874-1925 | The header writes of child linking represent the longer chain and the larger count. |
| GroupRuntime.DeathCounts | Runtime/src/arc.c:349-428 | The count left after a death is the number of live members, and is positive exactly when one is left. |
| GroupRuntime.DeathRepresents | Runtime/src/arc.c:349-428 | A death that is not the last keeps headers and abstract group in step. |
| GroupRuntime.LastDeathRepresents | Runtime/src/arc.c:285-299 | The headers the teardown leaves represent the heap without the group. |
| GroupRuntime.ChainIsWalkable | Runtime/src/arc.c:285-299 | After the root's bookkeeping is reset the chain can still be walked from the saved head to the root. |
| GroupRuntime.GroupHeap.AllocObject | Runtime/src/loader.c:1927-1946 | Allocation without a parent. |
| GroupRuntime.GroupHeap.EnsureGroup | Runtime/src/object-header.c:912-979 | A group is made where there is none and memory suffices. |
| GroupRuntime.GroupHeap.AllocChild | Runtime/src/loader.c:1874-1925 | Child allocation with every way it can stop; it answers an object exactly when it linked one. |
| GroupRuntime.GroupHeap.Join | Runtime/src/loader.c:1891-1925 | The part under the group lock; the check of the live count can never fail for a live parent. |
| GroupRuntime.GroupHeap.LinkMember | Runtime/src/loader.c:1904-1913 | The five header writes that put a member at the head of the chain. |
| GroupRuntime.GroupHeap.Dispose | Runtime/src/arc.c:349-428 | sf_object_dispose for ordinary heap objects. |
| GroupRuntime.GroupHeap.DisposeMember | Runtime/src/arc.c:397-428 | The death of a member; at zero the group is torn down. |
| GroupRuntime.GroupHeap.FreeGroup | Runtime/src/arc.c:415-428 | The teardown frees what the abstract last death frees. |
| GroupRuntime.GroupHeap.FreeMembers | Runtime/src/arc.c:285-299 | The loop reads each link before it frees the block, and the frees it asks for are the chain's, in order. |
| GroupLockstep.Lockstep | Runtime/src/object-header.c:507-979 | The same run of the list runtime and of the default, compact and inline layouts, allocations that fail at any point included, leaves all three layouts with the same root, head, next, count and parent answers, those of the linked headers; nothing is asked of a death but that the object is live. |
| GroupLockstep.Ready | Runtime/src/arc.c:397-428 | Every legal operation finds what the setters rely on: a count of one means that every other member is dead, so that zero is stored only for a dead group, and the chain can be walked to its end. |
| GroupLockstep.TidyIsGood | Runtime/src/object-header.c:507-979 | Headers that represent a group heap are a state the setters can work on. |
| GroupLockstep.TidyKept | Runtime/src/object-header.c:507-979 | Every operation leaves ungrouped headers without parent and link, and head and count to roots. |
| GroupLockstep.NextIsStep | Runtime/src/arc.c:285-428 | The header writes of every operation of the list runtime are the setter calls of the layouts, teardown and freeing included. |
| GroupLockstep.LinkIsFiveSetters | Runtime/src/loader.c:1904-1913 | The link step of the group model is the five setter calls in order. |
| GroupLockstep.InitIsInit | Runtime/src/object-header.c:912-979 | Making a root in the group model is the init operation of the layouts. |
| GroupLockstep.DeathIsKillAndCount | Runtime/src/arc.c:403-414 | Marking a member dead is the death and the count setter. |
| GroupLockstep.TeardownIsResets | Runtime/src/arc.c:285-299 | Freeing the chain is clearing the root and then every member. |
| GroupLockstep.DefaultChild | Runtime/src/loader.c:1874-1925 | Child allocation over the default layout's setters: every way it can stop leaves the answers of that outcome. |
| GroupLockstep.DefaultDeath | Runtime/src/arc.c:397-428 | A death over the default layout's setters, with teardown at zero. |
| GroupLockstep.DefaultFree | Runtime/src/arc.c:285-299 | The freeing loop over the default layout reads each link before it clears the header. |
| GroupLockstep.DefaultTry | Runtime/src/loader.c:1874-1925 | A child allocation of any outcome leaves the answers of that outcome in the default layout, which cannot fail in a setter. |
| GroupLockstep.CompactTry | Runtime/src/loader.c:1874-1925 | The same in the compact layout, by failing where the outcome says. |
| GroupLockstep.InlineTry | Runtime/src/loader.c:1874-1925 | The same in the inline layout. |
| GroupLockstep.DefaultStep | Runtime/src/object-header.c:507-979 | One operation in the default layout gives the linked headers' answers. |
| GroupLockstep.CompactChild | Runtime/src/loader.c:1874-1925 | Child allocation over the compact layout's setters: every way it can stop leaves the answers of that outcome. |
| GroupLockstep.CompactDeath | Runtime/src/arc.c:397-428 | A death over the compact layout's setters, with teardown at zero. |
| GroupLockstep.CompactFree | Runtime/src/arc.c:285-299 | The freeing loop over the compact layout reads each link before it clears the header. |
| GroupLockstep.CompactStep | Runtime/src/object-header.c:507-979 | One operation in the compact layout gives the linked headers' answers. |
| GroupLockstep.InlineChild | Runtime/src/loader.c:1874-1925 | Child allocation over the inline layout's setters: every way it can stop leaves the answers of that outcome. |
| GroupLockstep.InlineDeath | Runtime/src/arc.c:397-428 | A death over the inline layout's setters, with teardown at zero. |
| GroupLockstep.InlineFree | Runtime/src/arc.c:285-299 | The freeing loop over the inline layout reads each link before it clears the header. |
| GroupLockstep.InlineStep | Runtime/src/object-header.c:507-979 | One operation in the inline layout gives the linked headers' answers. |
| InlineHeaders.StaleZeroIsMisread | Runtime/src/object-header.c:725-754 | A live member under a stored count of zero is counted as one. |
| DefaultHeaders.Headers.GroupRoot | Runtime/src/object-header.c:538-556 | Default layout: the root getter answers the abstract root, or the object itself outside a group. |
| DefaultHeaders.Headers.GroupNext | Runtime/src/object-header.c:607-617 | Default layout: the next getter answers the abstract link. |
| DefaultHeaders.Headers.GroupHead | Runtime/src/object-header.c:632-662 | Default layout: the head getter answers the abstract head, or the object itself outside a group. |
| DefaultHeaders.Headers.LiveCount | Runtime/src/object-header.c:725-754 | Default layout: the count getter answers the abstract count; outside a group it is one or zero with the state. |
| DefaultHeaders.Headers.Parent | Runtime/src/object-header.c:507-520 | Default layout: the parent getter answers the abstract parent. |
| DefaultHeaders.Headers.Grouped | Runtime/src/object-header.c:889-910 | Default layout: an object is grouped exactly when the abstract group has a root for it. |
| DefaultHeaders.Headers.GroupDead | Runtime/src/object-header.c:862-887 | Default layout: the dead flag answers whether the group exists and its count is zero. |
| DefaultHeaders.Headers.InitRoot | Runtime/src/object-header.c:912-979 | Default layout: making a root changes the answers as the abstract init does, twice the same as once; a failure changes none. |
| DefaultHeaders.Headers.SetParent | Runtime/src/object-header.c:522-536 | Default layout: setting the parent changes that answer only. |
| DefaultHeaders.Headers.SetGroupRoot | Runtime/src/object-header.c:558-605 | Default layout: joining a root changes the root answer only. |
| DefaultHeaders.Headers.SetGroupNext | Runtime/src/object-header.c:619-630 | Default layout: setting the link changes that answer only. |
| DefaultHeaders.Headers.SetGroupHead | Runtime/src/object-header.c:664-723 | Default layout: setting the head of a root changes that answer only. |
| DefaultHeaders.Headers.SetLiveCount | Runtime/src/object-header.c:756-860 | Default layout: setting the count of a root changes that answer only; zero is stored only when the whole group is dead. |
| DefaultHeaders.Headers.DestroyMember | Runtime/src/object-header.c:1016-1063 | Default layout: clearing a member makes its answers those of an ungrouped object. |
| DefaultHeaders.Headers.TearDown | Runtime/src/object-header.c:1016-1063 | Default layout: the end of a group answers its head and resets the root. |
| DefaultHeaders.Headers.Fresh | Runtime/src/loader.c:1749-1779 | Default layout: a new header answers as an ungrouped live object. |
| DefaultHeaders.Headers.Die | Runtime/src/arc.c:403-413 | Default layout: a death changes the liveness answer only. |
| CompactHeaders.Headers.EnsureCold | Runtime/src/object-header.c:57-78 | Compact layout: allocating the cold record changes no answer, whether it succeeds or not. |
| CompactHeaders.Headers.GroupState | Runtime/src/object-header.c:231-236 | Compact layout: a group record is found exactly for grouped objects, and it is the root's. |
| CompactHeaders.Headers.GroupRoot | Runtime/src/object-header.c:538-556 | Compact layout: the root getter answers the abstract root, or the object itself outside a group. |
| CompactHeaders.Headers.GroupNext | Runtime/src/object-header.c:607-617 | Compact layout: the next getter answers the abstract link. |
| CompactHeaders.Headers.GroupHead | Runtime/src/object-header.c:632-662 | Compact layout: the head getter answers the abstract head, or the object itself outside a group. |
| CompactHeaders.Headers.LiveCount | Runtime/src/object-header.c:725-754 | Compact layout: the count getter answers the abstract count; outside a group it is one or zero with the state. |
| CompactHeaders.Headers.Parent | Runtime/src/object-header.c:507-520 | Compact layout: the parent getter answers the abstract parent. |
| CompactHeaders.Headers.Grouped | Runtime/src/object-header.c:889-910 | Compact layout: an object is grouped exactly when the abstract group has a root for it. |
| CompactHeaders.Headers.GroupDead | Runtime/src/object-header.c:862-887 | Compact layout: the dead flag answers whether the group exists and its count is zero. |
| CompactHeaders.Headers.InitRoot | Runtime/src/object-header.c:912-979 | Compact layout: making a root changes the answers as the abstract init does, twice the same as once; a failure changes none. |
| CompactHeaders.Headers.SetParent | Runtime/src/object-header.c:522-536 | Compact layout: setting the parent changes that answer only. |
| CompactHeaders.Headers.SetGroupRoot | Runtime/src/object-header.c:558-605 | Compact layout: joining a root changes the root answer only. |
| CompactHeaders.Headers.SetGroupNext | Runtime/src/object-header.c:619-630 | Compact layout: setting the link changes that answer only. |
| CompactHeaders.Headers.SetGroupHead | Runtime/src/object-header.c:664-723 | Compact layout: setting the head of a root changes that answer only. |
| CompactHeaders.Headers.SetLiveCount | Runtime/src/object-header.c:756-860 | Compact layout: setting the count of a root changes that answer only; zero is stored only when the whole group is dead. |
| CompactHeaders.Headers.DestroyMember | Runtime/src/object-header.c:1016-1063 | Compact layout: clearing a member makes its answers those of an ungrouped object. |
| CompactHeaders.Headers.TearDown | Runtime/src/object-header.c:1016-1063 | Compact layout: the end of a group answers its head and resets the root. |
| CompactHeaders.Headers.Fresh | Runtime/src/loader.c:1749-1779 | Compact layout: a new header answers as an ungrouped live object. |
| CompactHeaders.Headers.Die | Runtime/src/arc.c:403-413 | Compact layout: a death changes the liveness answer only. |
| InlineHeaders.Headers.EnsureCold | Runtime/src/object-header.c:57-78 | Inline layout: allocating the cold record changes no answer, whether it succeeds or not. |
| InlineHeaders.Headers.GroupRoot | Runtime/src/object-header.c:538-556 | Inline layout: the root getter answers the abstract root, or the object itself outside a group. |
| InlineHeaders.Headers.GroupNext | Runtime/src/object-header.c:607-617 | Inline layout: the next getter answers the abstract link. |
| InlineHeaders.Headers.GroupHead | Runtime/src/object-header.c:632-662 | Inline layout: the head getter answers the abstract head, or the object itself outside a group. |
| InlineHeaders.Headers.LiveCount | Runtime/src/object-header.c:725-754 | Inline layout: whatever the headers hold, the count getter answers the root's stored count for an object if and only if that is not zero or the object is dead; in a valid state it answers the abstract count. |
| InlineHeaders.Headers.Parent | Runtime/src/object-header.c:507-520 | Inline layout: the parent getter answers the abstract parent. |
| InlineHeaders.Headers.Grouped | Runtime/src/object-header.c:889-910 | Inline layout: an object is grouped exactly when the abstract group has a root for it. |
| InlineHeaders.Headers.GroupDead | Runtime/src/object-header.c:862-887 | Inline layout: the dead flag answers whether the group exists and its count is zero. |
| InlineHeaders.Headers.InitRoot | Runtime/src/object-header.c:912-979 | Inline layout: making a root changes the answers as the abstract init does, twice the same as once; a failure changes none. |
| InlineHeaders.Headers.SetParent | Runtime/src/object-header.c:522-536 | Inline layout: setting the parent changes that answer only. |
| InlineHeaders.Headers.SetGroupRoot | Runtime/src/object-header.c:558-605 | Inline layout: joining a root changes the root answer only. |
| InlineHeaders.Headers.SetGroupNext | Runtime/src/object-header.c:619-630 | Inline layout: setting the link changes that answer only. |
| InlineHeaders.Headers.SetGroupHead | Runtime/src/object-header.c:664-723 | Inline layout: setting the head of a root changes that answer only. |
| InlineHeaders.Headers.SetLiveCount | Runtime/src/object-header.c:756-860 | Inline layout: setting the count of a root changes that answer only; zero is stored only when the whole group is dead. |
| InlineHeaders.Headers.DestroyMember | Runtime/src/object-header.c:1016-1063 | Inline layout: clearing a member makes its answers those of an ungrouped object. |
| InlineHeaders.Headers.TearDown | Runtime/src/object-header.c:1016-1063 | Inline layout: the end of a group answers its head and resets the root. |
| InlineHeaders.Headers.Fresh | Runtime/src/loader.c:1749-1779 | Inline layout: a new header answers as an ungrouped live object. |
| InlineHeaders.Headers.Die | Runtime/src/arc.c:403-413 | Inline layout: a death changes the liveness answer only. |
| Leb.ReadUleb | Runtime/src/exceptions/exceptions.c:375-392 | On any terminated byte sequence, overlong ones included, exactly that sequence is consumed and the value is the sum of its 7-bit groups modulo 2^64. |
| Leb.ReadSleb | Runtime/src/exceptions/exceptions.c:394-415 | The same for signed numbers: the two's-complement value modulo 2^64. |
| Leb.Accumulate | Runtime/src/exceptions/exceptions.c:375-392 | One round of either loop, with a shift that saturates at the word width, adds one group modulo 2^64. |
| Leb.SignExtend | Runtime/src/exceptions/exceptions.c:394-415 | Filling ones above the last group makes the sum the two's-complement value; past ten groups nothing is filled. |
| Leb.EndIs | Runtime/src/exceptions/exceptions.c:375-415 | Where a number ends is determined by the first byte without its top bit. |
| Leb.WriteUleb | Runtime/tests/fuzz/exceptions/fuzz-exceptions-lsda.c:44-61 | The writer's output is the shortest encoding, cut off at the capacity. |
| Leb.WriteSleb | Runtime/tests/fuzz/exceptions/fuzz-exceptions-lsda.c:63-83 | The same for signed numbers. |
| Leb.UlebMeans | Runtime/tests/fuzz/exceptions/fuzz-exceptions-lsda.c:44-61 | The groups of the written bytes sum to the number. |
| Leb.SlebMeans | Runtime/tests/fuzz/exceptions/fuzz-exceptions-lsda.c:63-83 | The two's-complement value of the written bytes is the number. |
| Leb.TenAreEnough | Runtime/tests/fuzz/exceptions/fuzz-exceptions-lsda.c:44-83 | Ten bytes hold the encoding of any 64-bit value. |
| Leb.UlebRoundTrip | Runtime/src/exceptions/exceptions.c:375-392 | Reading what was written gives back every 64-bit value and stops right behind it, whatever follows. |
| Leb.SlebRoundTrip | Runtime/src/exceptions/exceptions.c:394-415 | The same for every signed 64-bit value. |
| Leb.KnownNumbers | Runtime/tests/fuzz/exceptions/fuzz-exceptions-lsda.c:44-83 | The example encodings of section 7.6 of DWARF 5. |
| Lsda.ReadPlain | Runtime/src/exceptions/exceptions.c:424-501 | The format switch: each format reads its own width and extends its own way; an unknown one aborts. |
| Lsda.ReadEncoded | Runtime/src/exceptions/exceptions.c:417-501 | Format, position-relative addition and indirection together; the omitted encoding reads zero and moves nothing. |
| Lsda.EncodedMeans | Runtime/src/exceptions/exceptions.c:417-501 | The low four bits of an encoding are the format, the next three ask for the position to be added, the top one for the word the sum points at; 0xFF reads zero and moves nothing. |
| Lsda.FormatsMean | Runtime/src/exceptions/exceptions.c:424-489 | The nine formats by number: a word, the two LEB128 numbers, and two, four or eight bytes without and with a sign extended to 64 bits, with where each ends. |
| Lsda.BytesOfFour | Runtime/src/exceptions/exceptions.c:449-455 | Multi-byte numbers have their lowest byte first. |
| Lsda.ValueIsWord | Runtime/src/exceptions/exceptions.c:424-501 | Every value read is a 64-bit word. |
| Lsda.ClassNameMatches | Runtime/src/exceptions/exceptions.c:522-536 | The name is that of the class or of one of its superclasses. |
| Lsda.MatchesType | Runtime/src/exceptions/exceptions.c:538-554 | A null type catches nothing, "@id" every resolved exception, any other name the classes under it. |
| Lsda.TryHandler | Runtime/src/exceptions/exceptions.c:626-636 | The type entry counted down from the end of the type table is the one the handler's index names. |
| Lsda.WalkChain | Runtime/src/exceptions/exceptions.c:619-651 | The action loop over the bytes of a chain answers what the walk over its type indices does. |
| Lsda.ReadSite | Runtime/src/exceptions/exceptions.c:596-599 | The four fields of a call-site record. |
| Lsda.SearchSites | Runtime/src/exceptions/exceptions.c:595-653 | The call-site loop over the bytes answers what the search over the abstract sites does. |
| Lsda.ReadHeader | Runtime/src/exceptions/exceptions.c:575-593 | The header: landing-pad base, end of the type table, call-site format, and the two tables behind it. |
| Lsda.Parse | Runtime/src/exceptions/exceptions.c:563-654 | For every laid-out table the parser refines the abstract search: found or not, landing pad, selector, cleanup and handler flags. |
| Lsda.LandsAtSite | Runtime/src/exceptions/exceptions.c:570-617 | If the byte before the return address, or the function's first byte, lies in a call site and in none before it, the frame lands at that site's pad behind the landing-pad base, to clean up if it has no actions, and nowhere if it has no pad. |
| Lsda.LandsForHandler | Runtime/src/exceptions/exceptions.c:570-652 | With actions it lands with the index, narrowed to an int, of the first record that catches, and with the cleanup flag exactly if a zero record comes before it. |
| Lsda.LandsForCleanup | Runtime/src/exceptions/exceptions.c:570-652 | If no record catches, it lands to clean up exactly if the chain has a zero record. |
| Lsda.LandsNowhere | Runtime/src/exceptions/exceptions.c:570-654 | If the call lies in no site, there is no landing. |
| Lsda.SampleIsTable | Runtime/src/exceptions/exceptions.c:575-653 | Twenty bytes that are, field by field, a header, a call site, an action record and a type entry for "Foo". |
| Lsda.SampleLands | Runtime/src/exceptions/exceptions.c:563-654 | Where a frame with that table lands for a subclass of "Foo", for another class, and for a call past the site. |
| Lsda.HitIsPositive | Runtime/src/exceptions/exceptions.c:538-554 | A record catches exactly if its index is positive and its type is "@id" or names the class of the resolved exception or one above it. |
| Lsda.SearchIsFirst | Runtime/src/exceptions/exceptions.c:595-653 | The abstract search answers for the first call site that covers the address. |
| Lsda.UncoveredIsUnwound | Runtime/src/exceptions/exceptions.c:595-653 | An address no site covers has no landing. |
| Lsda.WalkStopsAtFirst | Runtime/src/exceptions/exceptions.c:619-651 | The walk answers the first record that catches, and reports a cleanup if and only if a zero-type record comes before it. |
| Lsda.WalkToTheEnd | Runtime/src/exceptions/exceptions.c:619-651 | A chain nothing in which catches has no handler, and a cleanup if and only if it has a zero-type record. |
| LsdaWriter.PutReads | Runtime/tests/fuzz/exceptions/fuzz-exceptions-lsda.c:85-121 | The encoded-pointer reader inverts the writer for every format, position-relative and indirect ones included, and every word the format carries. |
| LsdaWriter.OnlyCarriedAreRead | Runtime/src/exceptions/exceptions.c:424-489 | Every value read in a format is one that the writer can put in it, so the round trip covers all of them. |
| LsdaWriter.ChainWritten | Runtime/src/exceptions/exceptions.c:619-651 | The bytes of consecutive records are a chain with the same type indices. |
| LsdaWriter.SiteWritten | Runtime/src/exceptions/exceptions.c:596-599 | The bytes of one call-site record read back as the site its words stand for at their places. |
| LsdaWriter.SitesWritten | Runtime/src/exceptions/exceptions.c:595-653 | And those of a call-site table as its sites. |
| LsdaWriter.TypeWritten | Runtime/src/exceptions/exceptions.c:619-651 | Entry i of a written type table is found i strides below its end. |
| LsdaWriter.HeaderWritten | Runtime/src/exceptions/exceptions.c:575-593 | The header of the serialised bytes reads back. |
| LsdaWriter.SerializeIsTable | Runtime/src/exceptions/exceptions.c:563-654 | Wherever the serialised bytes of a plan lie, they are a table meaning what the plan means there, so the parser answers as the search over that meaning does. |
| EncodingLanguage.ParseInvertsPrint | Runtime/src/encoding.m:263-402 | For every tree in normal form and every text after it that does not continue it, exactly the printed text is consumed and the tree's kind, qualifiers, depth, counts, names and slices come back; the tree holds kinds and qualifiers, and a printer of its own gives their letters. |
| EncodingLanguage.PartsAreRead | Runtime/src/encoding.m:263-402 | The recorded places of source, element, name and fields hold the texts of the tree's own parts, and the depth is the number of carets modulo 2^32. |
| EncodingLanguage.NumbersAreRead | Runtime/src/encoding.m:111-121 | An array of n elements and a bit-field of n bits are read with count and width n modulo 2^64. |
| EncodingLanguage.LettersInvert | Runtime/src/encoding.m:87-262 | The parser's two tables of letters and the printer's letters are inverse to each other. |
| EncodingLanguage.IntegersMean | Runtime/src/encoding.m:197-262 | The ten integer letters and the kind each parses to. |
| EncodingLanguage.LettersMean | Runtime/src/encoding.m:197-262 | The nine other letters that are types of their own. |
| EncodingLanguage.CodesMean | Runtime/src/encoding.m:280-402 | What each other code begins: objects, blocks, structs, unions, bit-fields and vectors. |
| EncodingLanguage.ElementsMean | Runtime/src/encoding.m:280-402 | Pointers, arrays, complex and vector types by their first character. |
| EncodingLanguage.QualifiersMean | Runtime/src/encoding.m:87-110 | The eight qualifier letters and the qualifier each parses to. |
| EncodingLanguage.TreeOf | Runtime/src/encoding.m:263-402 | Everything the parser accepts is the printed form of some tree in normal form. |
| EncodingLanguage.ParsesExactlyPrinted | Runtime/src/encoding.m:263-402 | The parser accepts at a position if and only if a printed type stands there, and then reports it. |
| EncodingLanguage.SliceReparses | Runtime/src/encoding.m:263-402 | Parsing the recorded source slice alone gives the same result and uses all of it. |
| EncodingLanguage.ElementReparses | Runtime/src/encoding.m:263-402 | The recorded element of a pointer, array, complex or vector is itself an accepted type whose slice reparses. |
| EncodingLanguage.PointerInverts | Runtime/src/encoding.m:319-334 | Adjacent carets are one pointer as deep as there are carets. |
| EncodingLanguage.AggregateInverts | Runtime/src/encoding.m:157-195 | Name, fields and end of a printed aggregate, with or without members and labels. |
| EncodingLanguage.MembersInvert | Runtime/src/encoding.m:157-195 | The member loop stops at the closing bracket of the aggregate it began in. |
| EncodingLoops.ParseUnsigned | Runtime/src/encoding.m:111-121 | The digits' decimal value modulo 2^64. |
| EncodingSyntax.DecimalIsNumeral | Runtime/src/encoding.m:111-121 | The decimal value of a number written out is the number. |
| EncodingLoops.ParseSigned | Runtime/src/encoding.m:123-141 | The signed value, its magnitude clamped to the largest 32-bit integer. |
| EncodingLoops.SkipQuoted | Runtime/src/encoding.m:143-153 | One past the closing quote, or failure without one. |
| EncodingLoops.ParseEncodingAggregate | Runtime/src/encoding.m:157-195 | The cursor loops of an aggregate compute the recursive definition, failures included. |
| EncodingLoops.ParseMembers | Runtime/src/encoding.m:171-193 | So does the member loop. |
| EncodingLoops.ParseEncodingType | Runtime/src/encoding.m:263-402 | The parser terminates on every string and computes the recursive definition. |
| EncodingLoops.ParseEncodingBody | Runtime/src/encoding.m:280-402 | The switch on the type code. |
| EncodingLoops.ParsePointerLoop | Runtime/src/encoding.m:319-334 | The caret-counting loop. |
| EncodingLoops.ParseMethodEncoding | Runtime/src/encoding.m:452-493 | All arguments are counted, the first 32 are recorded, and a malformed one fails the whole. |
| MethodLanguage.MethodInverts | Runtime/src/encoding.m:452-493 | A method written out, a result and arguments with or without a number behind each, is read as what was written: result, frame size, argument count, and of the first 32 arguments each type and offset. |
| MethodLanguage.ParsesExactlyMethods | Runtime/src/encoding.m:452-493 | The parser accepts a text if and only if it is such a written method, up to the first NUL. |
| MethodLanguage.SourcesAreRead | Runtime/src/encoding.m:463-482 | The recorded source of an argument is the text of its type and number. |
| MethodLanguage.IntegerRead | Runtime/src/encoding.m:123-141 | An integer written out is read back as itself if it fits 32 bits with its sign, and otherwise as the nearest that does. |
| TokenSkipper.SkipTypeToken | Runtime/src/dispatch/dispatch-c.c:113-188 | The skipper terminates on every string and stops where its definition by bracket counting says. |
| TokenSkipper.SkipBrackets | Runtime/src/dispatch/dispatch-c.c:113-188 | The bracket-counting loop. |
| TokenSkipper.PrimaryTypeCode | Runtime/src/dispatch/dispatch-c.c:190-199 | The first character that is no qualifier. |
| TokenSkipper.ScanType | Runtime/src/dispatch/dispatch-c.c:113-188 | Inside brackets of one kind every printed type with bracket-free names leaves the bracket depth as it was, whatever brackets it has itself. |
| TokenSkipper.SkipsPrinted | Runtime/src/dispatch/dispatch-c.c:113-188 | For every type with bracket-free names, the skipper stops exactly where the printed type, hence the parser, ends if and only if outside brackets the type has no atomic qualifier, bit-field width, complex number or vector element. |
| TokenSkipper.SkipsParsed | Runtime/src/dispatch/dispatch-c.c:113-199 | On such a type both readers agree on the end and on the type code. |
| TokenSkipper.CollectExplicitArgCodes | Runtime/src/dispatch/dispatch-c.c:694-739 | The loop that collects argument codes, for every string. |
| TokenSkipper.CollectedAreParsed | Runtime/src/dispatch/dispatch-c.c:694-739 | For every method encoding of such types the collected codes are those after the first two that the dispatcher meets: the recorded arguments, preceded by the sign of the frame size if it has one. |
| TokenSkipper.SignIsCollected | Runtime/src/dispatch/dispatch-c.c:694-739 | The sign of a frame size is an argument to the dispatcher, whatever follows it. |
| TokenSkipper.AcceptedIs | Runtime/src/dispatch/dispatch-c.c:694-739 | The signature is reported unsupported if and only if it has a 'D' argument or more than four explicit ones; otherwise all codes are returned in order. |
| TokenSkipper.BitFieldsDiffer | Runtime/src/dispatch/dispatch-c.c:113-188 | A bit-field on which the readers differ. |
| TokenSkipper.SignedFramesDiffer | Runtime/src/dispatch/dispatch-c.c:694-739 | A signed frame size on which they differ. |
| TypeLayout.Read | Runtime/src/dispatch/dispatch-c.c:201-387 | On every string: it stops, moves on, and answers an alignment of 1, 2, 4 or 8 that divides the size, also when sizes wrap. |
| TypeLayout.SupportedIsClosed | Runtime/src/dispatch/dispatch-c.c:277-387 | What the reader supports is closed by the bracket that it was opened with. |
| TypeLayout.OpaqueIs | Runtime/src/dispatch/dispatch-c.c:297-387 | A struct or union without members is opaque: no size, and not supported. |
| TypeLayout.OtherTexts | Runtime/src/dispatch/dispatch-c.c:201-387 | No text takes no room; a code that is none of the known ones is taken for a word and not supported. |
| TypeLayout.ParseTypeLayout | Runtime/src/dispatch/dispatch-c.c:201-387 | The loops and branches compute that definition. |
| TypeLayout.ParseAggregateLayout | Runtime/src/dispatch/dispatch-c.c:297-387 | The struct and union cases. |
| TypeLayout.ParseMembersLayout | Runtime/src/dispatch/dispatch-c.c:297-387 | The member loop. |
| TypeLayout.ProductDivides | Runtime/src/dispatch/dispatch-c.c:277-296 | An array's size stays a multiple of the alignment when the product wraps at 2^64. |
| TypeLayout.AlignUp | Runtime/src/dispatch/dispatch-c.c:104-111 | Rounding up gives a multiple, also when the addition wraps. |
| TypeLayout.ReadIs | Runtime/src/dispatch/dispatch-c.c:201-387 | For every supported type whose sizes fit a word, the reader answers the size, alignment, floating-point flag and end of its tree: scalars as in the reader's own table, fields aligned, in order and apart, structs and unions padded. |
| TypeLayout.ScalarLetters | Runtime/src/dispatch/dispatch-c.c:201-270 | The size, alignment and floating-point flag the reader answers for each scalar letter. |
| TypeLayout.MembersRead | Runtime/src/dispatch/dispatch-c.c:297-387 | The member loop's running size is the extent of a struct's members, or the widest of a union's. |
| TypeLayout.MembersArePlaced | Runtime/src/dispatch/dispatch-c.c:297-387 | In that layout a struct's members are aligned, in order, apart from each other and inside its extent. |
| ClassMap.Inserted | Runtime/src/loader.c:1295-1308 | One insertion binds its name, disturbs no other binding and keeps every probe chain intact, whatever the hash function. |
| ClassMap.NoPlace | Runtime/src/loader.c:1295-1308 | A new name finds no place if and only if the table is full. |
| ClassMap.StoredIsBound | Runtime/src/loader.c:1324-1342 | Every stored entry is what a lookup of its name finds. |
| ClassMap.StoredOnce | Runtime/src/loader.c:1295-1308 | No name is stored twice. |
| ClassMap.OtherFind | Runtime/src/loader.c:1295-1308 | Filling the slot where one name's probe stopped leaves the probe of every bound name as it was. |
| ClassMap.Reaches | Runtime/src/loader.c:1295-1308 | The probes from any hash value reach every slot, also when the sum wraps at 2^64. |
| ClassMap.Table.Insert | Runtime/src/loader.c:1295-1308 | The table is extended by one binding; once full it drops a new name and changes nothing. |
| ClassMap.Table.Lookup | Runtime/src/loader.c:1324-1342 | The class the name is bound to, or none. |
| ClassMap.InsertAll | Runtime/src/loader.c:1295-1342 | After any insertions and re-insertions of at most as many names as there are slots, every name is bound to the last class given for it and every other to none. |
| Selectors.SlotsAreOneToOne | Runtime/src/loader.c:479-535 | Two frozen selectors have the same slot if and only if they have the same name. |
| Selectors.FreezeIsDense | Runtime/src/loader.c:479-535 | Slots are numbered from zero without a gap, and each leads back to the selector that has it, even when some frozen copies cannot be allocated. |
| Selectors.FreezeIsValid | Runtime/src/loader.c:479-535 | Freezing keeps the table well formed. |
| Selectors.FreezeKeepsNames | Runtime/src/loader.c:479-535 | Freezing keeps every name and its types and gives a slot to exactly those whose copy could be made. |
| Selectors.SlotOfName | Runtime/src/loader.c:500-530 | Every slot number handed out belongs to an entry of some bucket. |
| Selectors.ThawIsValid | Runtime/src/loader.c:489-501 | Dropping all frozen copies keeps the table well formed. |
| Selectors.Table.Find | Runtime/src/loader.c:358-372 | The entry of a name, if there is one. |
| Selectors.Table.Insert | Runtime/src/loader.c:374-421 | A known name may gain types it had none of, a new one is added if memory suffices, the empty one is refused; every other name is left alone. |
| Selectors.Table.Freeze | Runtime/src/loader.c:479-535 | Rebuilding the frozen selectors: all are dropped, then handed out anew, or none if the slot array cannot be allocated. |
| Selectors.Table.FreezeBuckets | Runtime/src/loader.c:502-535 | The loop over the buckets. |
| Selectors.Table.FreezeEntries | Runtime/src/loader.c:502-530 | The loop over one bucket. |
| Selectors.Table.DropAll | Runtime/src/loader.c:487-492 | The loop that drops every frozen copy. |
| Selectors.Table.DropFrozen | Runtime/src/loader.c:487-492 | The same over one bucket. |
| Dispatch.LookupIsWalk | Runtime/src/dispatch/dispatch.c:50-104 | Table lookup and superclass walk agree on a selector in all classes if and only if, in each class with a table, its last method for the selector is none or the same implementation as its first; tables that could not be allocated do no harm. |
| Dispatch.WalkIsNearest | Runtime/src/dispatch/dispatch.c:50-70 | The walk answers the first method, by list and place, of the nearest class up the superclass chain that has one for the selector. |
| Dispatch.WalkFindsNone | Runtime/src/dispatch/dispatch.c:50-70 | It finds nothing if no class up to the root, whose superclass is nil or itself, has one. |
| Dispatch.UsualLookupIsWalk | Runtime/src/dispatch/dispatch.c:50-104 | With at most one method per selector in every class, lookup is the walk for every class and every selector, frozen or not. |
| Dispatch.TwoMethodsDiffer | Runtime/src/loader.c:1278-1290 | One class with two methods for a selector, given with its table for every hash function: the table answers the second, the walk the first. |
| Dispatch.EntryIsWalk | Runtime/src/loader.c:1256-1293 | Every non-null table entry is what the walk finds. |
| Dispatch.Installed | Runtime/src/loader.c:1256-1293 | Copying the superclass's table and writing the class's methods over it gives a correct table. |
| Dispatch.Dispatcher.Slot | Runtime/src/loader.c:640-667 | The frozen slot of a name. |
| Dispatch.Dispatcher.SlotsMatch | Runtime/src/dispatch/dispatch.c:25-48 | Comparing slots, or names where one has no slot, is comparing names. |
| Dispatch.Dispatcher.LookupMethod | Runtime/src/dispatch/dispatch.c:50-70 | The loop over classes finds what the recursive walk does. |
| Dispatch.Dispatcher.LookupOwn | Runtime/src/dispatch/dispatch.c:57-63 | The inner loops find the first of a class's methods for the selector. |
| Dispatch.Dispatcher.LookupTable | Runtime/src/dispatch/dispatch.c:77-93 | The table entry, or none for a missing table or a slot outside it. |
| Dispatch.Dispatcher.LookupImp | Runtime/src/dispatch/dispatch.c:95-104 | The table first, then the walk. |
| Dispatch.Dispatcher.BuildTable | Runtime/src/loader.c:1256-1293 | Tables are built superclass first and stay correct in any order of calls; existing ones are kept, and one that cannot be allocated is left out. |
| Dispatch.Dispatcher.FillTable | Runtime/src/loader.c:1262-1293 | The table installed for one class. |
| Dispatch.Dispatcher.WriteList | Runtime/src/loader.c:1278-1290 | Writing one method list over the table lets later methods win. |
| Dispatch.ResolveDispatch | Runtime/src/dispatch/dispatch.c:144-189 | The forwarding loop ends at the receiver its definition names, after at most eight hops, with that receiver's implementation. |
| Dispatch.LookupFor | Runtime/src/dispatch/dispatch.c:111-115 | The implementation for an object, none for one without a class. |
| Dispatch.FinalAnswers | Runtime/src/dispatch/dispatch.c:144-189 | Every receiver passed over has no implementation and names the next; the last has one unless no further hop is possible. |
| Dispatch.AnswerIsWalk | Runtime/src/dispatch/dispatch.c:144-189 | With one method per selector, a message goes along forwarding targets, over at most nine objects, none but the last with an implementation, and is answered by what the walk finds from the last one's own class; if that is nothing, no further hop was possible. |
| ClassLayout.InstancesArePlaced | Runtime/src/loader.c:1051-1233 | In every class whose superclass chain the compiler laid out properly, all inherited and own ivars, where their stored offset cells say they are, and hidden value slots are pairwise disjoint, behind the isa pointer and inside the instance size. |
| ClassLayout.SizeIsTight | Runtime/src/loader.c:1176-1232 | The instance size is a whole number of words, and some ivar, slot or the superclass ends in its last word. |
| ClassLayout.CellsOf | Runtime/src/loader.c:1114-1131 | Each stored offset cell of such a class is the compiler's offset plus the superclass's instance size, or plus 8 in a root class, whose superclass is nil or itself. |
| ClassLayout.RegionsAreInherited | Runtime/src/loader.c:1076-1085 | An instance of a subclass has everything an instance of its superclass has, at the same places, and its own ivars besides. |
| ClassLayout.SlotsServe | Runtime/src/loader.c:1136-1174 | The slots a class adds belong, in order, to its ivars that embed a value: each records that ivar's stored offset and class and is the least whole number of words for a header and an instance; only storage of 4 GiB or more is left out. |
| ClassLayout.SlotsAreInside | Runtime/src/loader.c:1182-1230 | Slots are pointer-aligned and inside the instance, and a subclass continues its superclass's slots and size. |
| ClassLayout.OwnPartIsPlaced | Runtime/src/loader.c:1087-1220 | A class's own ivars and slots lie apart and behind the superclass's part. |
| ClassLayout.IvarsArePlaced | Runtime/src/loader.c:1108-1142 | Ivars apart before adjustment are apart after it, and end before the tracked end. |
| ClassLayout.SlotsArePlaced | Runtime/src/loader.c:1182-1189 | The slot cursor places slots one behind the other. |
| ClassLayout.FixAll | Runtime/src/loader.c:1431-1440 | After one pass in any order every class has the layout of the pure recursive definition, whichever were laid out on the way, and the offset cells of properly laid out classes hold the compiler's offsets plus the superclass's size. |
| ClassLayout.Loader.FixLayout | Runtime/src/loader.c:1051-1233 | The memoised recursion gives the pure definition's layout, offset cells included, leaves higher classes alone, never meets a class it is in the middle of, and never overruns its stack. |
| ClassLayout.Loader.FixSuper | Runtime/src/loader.c:1076-1085 | The superclass is laid out first; its size and slots are inherited. |
| ClassLayout.Loader.FixIvars | Runtime/src/loader.c:1087-1174 | The ivar loop adjusts every offset cell once, to what `ClassLayout.CellsOf` says of it, and notes a slot for each embeddable value. |
| ClassLayout.Loader.FixCell | Runtime/src/loader.c:1114-1135 | One offset cell is written with the offset moved behind the superclass and clamped to 32 bits, as `ClassLayout.CellsOf` and `ClassLayout.AdjustedIsNearest` say of it. |
| ClassLayout.Loader.FixValue | Runtime/src/loader.c:1147-1168 | The storage of an embedded value follows from its class's own layout. |
| ClassLayout.Loader.PlaceOwn | Runtime/src/loader.c:1176-1232 | Placing the slots and merging them behind the inherited ones, or leaving them out when that cannot be allocated. |
| ClassLayout.Loader.PlaceLoop | Runtime/src/loader.c:1183-1189 | The slot cursor loop. |
| ClassLayout.AlignUp | Runtime/src/loader.c:848-854 | The least multiple of the word size not below its argument. |
| ClassLayout.Adjusted | Runtime/src/loader.c:1114-1131 | An adjusted offset is never negative and never above the largest 32-bit integer. |
| ClassLayout.AdjustedIsNearest | Runtime/src/loader.c:1114-1131 | No other offset from zero to the largest 32-bit integer is nearer to the sum of offset and superclass size. |
| Blocks.EveryInterleaving | Runtime/src/Blocks/runtime.m:155-541 | Under every interleaving of any number of threads: a block's count is exactly its outstanding references or latched, its upper flag bits stay the stack block's with the free bit set, it is disposed at most once, exactly if the stack block has a dispose helper and the copy is freed, and freed at most once and only without a reference, and once nobody is busy with it, it is freed exactly when no reference is left. |
| Blocks.CopiedFromStack | Runtime/src/Blocks/runtime.m:343-359 | Whatever threads do after a stack block was copied, the heap copy has the stack block's own bits above the count, and the free bit; once freed it has been disposed once if the stack block has a dispose helper, and otherwise not. |
| Blocks.ReleaseCompletes | Runtime/src/Blocks/runtime.m:169-184 | From every reachable state a thread left to itself can release what it holds: the count goes down by one unless it is latched, and with the last reference the block is freed, after its dispose helper ran if it has one. |
| Blocks.CopyCompletes | Runtime/src/Blocks/runtime.m:155-167 | And copy it: it then holds one reference more, and the count has gone up by one unless it was latched. |
| Blocks.NoUseAfterFree | Runtime/src/Blocks/runtime.m:155-541 | No thread that holds a block or works on it finds it freed. |
| Blocks.LatchedForever | Runtime/src/Blocks/runtime.m:155-184 | A latched count stays latched in every later state and its block is never disposed or freed. |
| Blocks.LatchedStep | Runtime/src/Blocks/runtime.m:155-184 | No step changes a latched block. |
| Blocks.RunKeeps | Runtime/src/Blocks/runtime.m:155-541 | The counting invariant holds in every reachable state. |
| Blocks.StepKeeps | Runtime/src/Blocks/runtime.m:155-541 | Every step keeps it. |
| Blocks.LoadKeeps | Runtime/src/Blocks/runtime.m:155-184 | A load does, whatever other threads did before it. |
| Blocks.SwapKeeps | Runtime/src/Blocks/runtime.m:155-184 | A compare-and-swap does, successful, lost to another thread or failing for no reason. |
| Blocks.FinishKeeps | Runtime/src/Blocks/runtime.m:518-536 | Dispose and deallocation do: the thread that took the count to zero is the only one to perform them. |
| Blocks.StartKeeps | Runtime/src/Blocks/runtime.m:319-331 | Beginning a copy or a release of a held block does. |
| Blocks.NewBlockKeeps | Runtime/src/Blocks/runtime.m:343-359 | The heap copy of a stack block begins with one reference and no other, with the stack block's upper bits and the free bit. |
| Blocks.CarryFree | Runtime/src/Blocks/runtime.m:155-167 | Adding one below the latch changes the low sixteen bits only. |
| Blocks.BorrowFree | Runtime/src/Blocks/runtime.m:169-184 | Taking one above zero changes the low sixteen bits only. |
| Utf.DecodeOne | StandardLibrary/src/SFStdLib/String.m:95-166 | Decoding succeeds exactly on a character of the grammar in section 4 of RFC 3629 and gives the value of section 3. |
| Utf.CharOfIsChar | StandardLibrary/src/SFStdLib/String.m:232-251 | The encoding of a code point is a character of the grammar if and only if it is a scalar value, and carries it. |
| Utf.CharIsCharOf | StandardLibrary/src/SFStdLib/String.m:95-166 | Every character of the grammar is the encoding of the scalar value it carries: none is overlong, a surrogate or out of range. |
| Utf.KnownCharacters | StandardLibrary/src/SFStdLib/String.m:232-251 | The example characters of section 7 of RFC 3629 and section 5 of RFC 2781. |
| Utf.Accepts3 | StandardLibrary/src/SFStdLib/String.m:129-145 | The decoder's bit tests for three bytes accept exactly the grammar's three-byte characters. |
| Utf.Accepts4 | StandardLibrary/src/SFStdLib/String.m:146-165 | And those for four bytes its four-byte characters. |
| Utf.AcceptsTheGrammar | StandardLibrary/src/SFStdLib/String.m:168-202 | A text is accepted to its end if and only if it is a sequence of characters of the grammar, however cut. |
| Utf.MeasureUnits | StandardLibrary/src/SFStdLib/String.m:168-202 | Measuring succeeds exactly on UTF-8 and counts the units of the UTF-16 expansion. |
| Utf.CharacterAt | StandardLibrary/src/SFStdLib/String.m:300-332 | The unit at an index is that of the UTF-16 expansion, or zero past its end. |
| Utf.PointsExpandBack | StandardLibrary/src/SFStdLib/String.m:204-230 | Expanding the code points read off UTF-16 gives the units back, lone surrogates included. |
| Utf.PointsScalarIff | StandardLibrary/src/SFStdLib/String.m:204-230 | They are all scalar values if and only if the units are well-formed UTF-16. |
| Utf.ScalarsComeBack | StandardLibrary/src/SFStdLib/String.m:204-230 | The UTF-16 of scalar values is well-formed, behind any text, and the writing loops find just these values in it. |
| Utf.DecodesWhatWasEncoded | StandardLibrary/src/SFStdLib/String.m:95-283 | The encoding of code points is accepted if and only if all are scalar values, and then decodes to them. |
| Utf.RoundTrip | StandardLibrary/src/SFStdLib/String.m:95-283 | The UTF-8 form of a string is accepted if and only if its units are well-formed UTF-16, and then decodes to the same units. |
| Utf.LoneSurrogateIsLost | StandardLibrary/src/SFStdLib/String.m:204-283 | A lone surrogate is written as bytes that are not UTF-8. |
| Utf.TakePoint | StandardLibrary/src/SFStdLib/String.m:204-283 | One code point off the units, as the sizing and the writing loop take it. |
| Utf.Utf8Size | StandardLibrary/src/SFStdLib/String.m:204-230 | The sizing pass answers the number of bytes the writing pass produces. |
| Utf.Utf8Buffer.Append | StandardLibrary/src/SFStdLib/String.m:232-251 | The bytes of one code point are written behind those before and nothing before them changes. |
| Utf.Utf8Buffer.Fill | StandardLibrary/src/SFStdLib/String.m:253-283 | The buffer holds exactly the encoded text and a NUL, inside its bounds; without room for them nothing was written. |
| AllocatorRun.ServeAll | Runtime/src/allocator.c:55-166 | After any sequence of allocations, size-matched frees and writes from an empty allocator, also where slabs cannot be mapped, the blocks a client holds are exactly the ones handed out, each with the contents its own writes since the allocation made of zero. |
| AllocatorRun.Serve | Runtime/src/allocator.c:106-166 | The same for one request. |
| AllocatorRun.PiecesAreApart | Runtime/src/allocator.c:55-166 | Such blocks are 16-byte aligned, large enough and less than 16 bytes too large, and no two share a word. |
| Allocator.RegionFitsIff | Runtime/src/allocator.c:106-160 | A region of the C library that stands in for a slab can take part as a block of its bin, whose words a free clears, if and only if the size is a multiple of 16 or more than 8 above one. |
| Allocator.AdoptKeepsIff | Runtime/src/allocator.c:106-160 | It keeps the invariant exactly if it is as long as the blocks of the bin. |
| Allocator.Bins.Borrow | Runtime/src/allocator.c:106-122 | The calloc after a failed refill: a block of the bin if the region is long enough, and otherwise a region apart. |
| Allocator.Bins.TakeFirst | Runtime/src/allocator.c:114-119 | The first block of a free list was handed to nobody, is zero from end to end and apart from the ones that are. |
| Allocator.BlocksArePartitioned | Runtime/src/allocator.c:55-166 | In every state each carved block is in exactly one place, the free list of its own size or a client's hands, no two share a word, and each is 16-byte aligned. |
| Allocator.TakeKeeps | Runtime/src/allocator.c:106-136 | A block taken from a free list was free, is zero from end to end, and the invariant holds without it. |
| Allocator.PutKeeps | Runtime/src/allocator.c:138-166 | A block given back is cleared past its link, and the lists stay threaded, disjoint and complete. |
| Allocator.CarveKeeps | Runtime/src/allocator.c:78-83 | Carving one more block from the end of a fresh slab keeps the invariant and leaves the rest of the slab untouched. |
| Allocator.MapKeeps | Runtime/src/allocator.c:55-76 | A fresh zeroed region disturbs no block and no list. |
| Allocator.WriteKeeps | Runtime/src/allocator.c:106-166 | A client's writes into its own block damage no free list and no zeroed block. |
| Allocator.SlabIsEnough | Runtime/src/allocator.c:55-76 | A slab rounded up to whole pages holds at least 64 blocks. |
| Allocator.SlabIs | Runtime/src/allocator.c:57-60 | A slab is the least number of whole pages that hold 64 blocks. |
| Allocator.BinOf | Runtime/src/allocator.c:98-104 | Exactly the sizes from 1 to 512 have a bin, whose blocks are large enough and less than 16 bytes too large. |
| Allocator.BinServes | Runtime/src/allocator.c:98-104 | Bin b serves the sizes from 16 b + 1 to 16 b + 16, up to 512. |
| Allocator.AlignmentsAre | Runtime/src/allocator.c:87-96 | Valid alignments are those up to a pointer's size and above it the powers of two. |
| Allocator.Bins.Refill | Runtime/src/allocator.c:55-85 | A refill makes the bin nonempty, hands nothing out and changes no existing block. |
| Allocator.Bins.CarveSlab | Runtime/src/allocator.c:78-83 | The carving loop over a whole slab. |
| Allocator.Bins.LinkBlock | Runtime/src/allocator.c:78-83 | One block of it is linked in front of its bin. |
| Allocator.Bins.Alloc | Runtime/src/allocator.c:106-136 | A small request gets a block nobody holds, large enough, 16-byte aligned, zero from end to end and apart from every block handed out, whose contents stay; only without a slab, and for a size whose region is too short for the bin, it gets such a region instead. Anything else goes to the C library or is refused, and changes nothing. |
| Allocator.Bins.Free | Runtime/src/allocator.c:138-166 | A block freed with its size goes back to its bin; null and library blocks change nothing here. |
| Allocator.Bins.Write | Runtime/src/allocator.c:106-166 | A client may write any word of a block it holds. |
| Allocator.Bins.AllocZeroed | Runtime/src/loader.c:1749-1756 | The initialiser leaves its memset out exactly when the allocator answers from a bin or in place of a slab, and what it is given then is zero from end to end. |

## Left out

- Threads and locks around reference counts and groups: the build fixes the runtime as single-threaded; only `Blocks` interleaves threads.
- ArcRuntime.Runtime.Finish: dealloc methods and `.cxx_destruct` are taken to have no effect on counts or slots; retaining `self` in dealloc and count overflow are excluded with them.
- ArcRuntime.Runtime.Retain: pointers without a header are left alone, as the branch that copies a block is left out; block counts are `Blocks`.
- ArcRuntime.Runtime.Release: likewise the branch that releases a block.
- ArcRuntime.Runtime.StoreStrong: likewise blocks stored in ivars.
- ArcRuntime.Runtime.Autorelease: likewise blocks in pools.
- ArcRuntime.Runtime.PoolPop: likewise blocks in pools.
- ArcRun.StepKeeps: a client uses only live objects, releases and autoreleases only references it owns, and gets new blocks at addresses that no slot or pool entry still has; a stale alias of embedded storage whose block is gone and reused is outside the model.
- ArcAliases.OverwrittenOutlivesItsBlock: the model keeps the header of an object whose block was given back; what the code reads from such a block is left out.
- ArcRuntime.Runtime.AllocEmbedded: which slots suit a class (subclass relation and size) is a flag of each slot, the failure of the parent record of a compact header is not modelled, and storage is not claimed to be zeroed on reuse.
- The slow path that clears ivars by walking ivar lists when the offsets are not cached.
- Groups whose root is an embedded object: its header lies in another object's block, so the claims about freeing do not extend to it.
- GroupRuntime.GroupHeap.AllocObject: which free address an allocator answers is a parameter of each allocation, and allocators are identified by numbers.
- GroupLockstep.Lockstep: counts of live members stay below 2^32. A layout that cannot fail where the outcome says so is not asked (no group state: default, and inline with a cold record) or gets no block (not linked: default).
- GroupSpec.EveryRun: the allocator and the size of a block are always remembered. A compact header remembers an allocator other than the default one only if its cold record can be allocated, and otherwise gives the block to the default one; every layout keeps sizes below 2^32 only.
- DefaultHeaders.Headers.SetParent: not for a group root, whose parent no caller sets.
- DefaultHeaders.Headers.SetGroupRoot: for an ungrouped member with a parent and the root of another group, as child allocation calls it; a null root and a header joining itself are left out.
- DefaultHeaders.Headers.SetGroupNext: for a member of a group only.
- DefaultHeaders.Headers.SetGroupHead: for a group root and a head that is not null; clearing the head is part of the teardown.
- DefaultHeaders.Headers.SetLiveCount: for a group root, and zero only once the whole group is dead, which every caller meets.
- CompactHeaders.Headers.SetParent: not for a group root, whose parent no caller sets.
- CompactHeaders.Headers.SetGroupRoot: for an ungrouped member with a parent and the root of another group, as child allocation calls it; a null root and a header joining itself are left out.
- CompactHeaders.Headers.SetGroupNext: for a member of a group only.
- CompactHeaders.Headers.SetGroupHead: for a group root and a head that is not null; clearing the head is part of the teardown.
- CompactHeaders.Headers.SetLiveCount: for a group root, and zero only once the whole group is dead, which every caller meets.
- InlineHeaders.Headers.SetParent: not for a group root, whose parent no caller sets.
- InlineHeaders.Headers.SetGroupRoot: for an ungrouped member with a parent and the root of another group, as child allocation calls it; a null root and a header joining itself are left out.
- InlineHeaders.Headers.SetGroupNext: for a member of a group only.
- InlineHeaders.Headers.SetGroupHead: for a group root and a head that is not null; clearing the head is part of the teardown.
- InlineHeaders.Headers.SetLiveCount: for a group root, and zero only once the whole group is dead, which every caller meets.
- The object validation registry, live cookies and address-sanitizer probes: looking up a header answers a live object's or none.
- Stack unwinding, backtraces, the personality routine's registers, and exceptions thrown while another is handled.
- Lsda.ReadEncoded: reads outside the mapped bytes are excluded by `Readable`, words are little-endian, and an abort of the process is an answer.
- Lsda.Parse: C strings behind type pointers are a map from addresses to names, action chains are acyclic, and type indices used with a table are in it.
- LsdaWriter.SerializeIsTable: for type tables of fixed stride; `Lsda.Parse` itself covers the others.
- EncodingLoops.ParseMethodEncoding: the argument count is not bounded by 32 bits.
- The encoding caches and property encodings: string splitting and memoisation around the parser.
- The dispatch signature cache: its zeroed entry already matches slot 0, so it does not equal the uncached result from the start.
- TokenSkipper.CollectExplicitArgCodes: for a selector that has types; one without has no codes.
- TypeLayout.ReadIs: no layout is claimed for labelled members, class names inside aggregates and the other types `Laid` excludes, which the reader does not support. The scalar table is the reader's own, in which a long double has eight bytes.
- Argument passing, libffi, variadic calls and assembly: effects outside the language.
- ClassMap.Table.Insert: names are strings and not pointers to them, and the hash function is arbitrary.
- Selectors.Table.Freeze: selectors are known by name; rewriting selector pointers in methods and regions, freeing the old copies and collecting the selectors of loaded code are left out.
- Dispatch.ResolveDispatch: classes and forwarding targets of objects are functions that do not change during the resolution; selector rewriting for tagged values is left out.
- ClassLayout.FixAll: one finalize pass over acyclic superclasses and containment; a second pass would add superclass sizes again. The class and visited tables of fixed capacity are sequences and sets, sizes in bytes do not wrap (32-bit slot fields do), and whether a type names an embeddable value class is part of the ivar.
- ClassLayout.InstancesArePlaced: for ivars with an offset cell that the compiler laid out apart from each other, below the clamped offsets, and instances below 4 GiB.
- Blocks.NewBlockKeeps: collected and global blocks, copy helpers, by-reference variables and storage overrides are left out; a block with the dispose flag has a dispose helper.
- Blocks.EveryInterleaving: threads see one shared memory in the order of their steps; weaker orderings are not modelled.
- Tagged strings and string methods other than the conversions.
- Allocator.Bins.Refill: a slab lies at an unmapped, aligned address given as a parameter.
- Allocator.Bins.Alloc: what the C library answers for other sizes and alignments is left out, as is what happens once a region too short for its bin is freed. Memory is counted in 8-byte words, so the bytes of a word that a region only begins are taken to be there.
- The generics plugin, build scripts, benchmarks, test harnesses, reflection accessors, Array, List and Number: thin, floating-point or easy.
