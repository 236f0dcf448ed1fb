# A verified model of the SuiraBox kernel core

This project models the memory stack of the SuiraBox kernel and the subsystems
around it, and proves what they promise.

- **Physical pages** (`Words`, `PmmSpec`, `Pmm`): the allocator's three bitmaps,
  updated a 64-bit word at a time, refine a state of page sets. The set model
  carries the properties of whole runs.
- **Boot memory map** (`Multiboot`, `TagOrder`, `InfoBlock`, `BootModules`): the walk
  over the Multiboot2 information block (sections 3.6.2, 3.6.6 and 3.6.8 of the
  Multiboot2 specification), the exact set of free pages it leaves, also for blocks
  written out byte by byte, that the order of tags and entries does not matter, and that modules stay intact while processes come and go.
- **Page tables** (`PageTables`, `Forests`, `Walks`): tables as positions of a
  forest (one kernel tree, any number of user trees), and the invariant that all
  tables are distinct pages. The kernel tree shares one table between two windows,
  so its positions are taken modulo that sharing.
- **Address spaces and kernel mappings** (`AddressSpace`, `Vmm`, `Boot`,
  `Spaces`, `Runs`, `Supervisor`, `LoadedRoot`): each operation with the exact
  condition of each result code, the refinement of every run to plain partial maps,
  and the identity-mapped first GiB that no user access reaches, under an exact
  condition on the root that is loaded when a space is created. `Startup` shows that
  booting from any Multiboot information reaches such runs.
- **The same operations on words in place** (`PageEntry`, `PageWords`, `EntryWords`,
  `Memory`): tables of 512 words, masked and shifted as the source does, and classes that
  update them and the bitmaps, proved equal to the functions above through
  decoding.
- **Programs** (`Elf`, `Loading`, `ElfLoader`, `ProcessExec`, `EntryPoint`,
  `ProgramFile`, `ProcessRuns`, `ProcessTable`): ELF64 validation and loading (System V gABI,
  chapters 4 and 5), the user stack, conservation of pages, the process table, and
  runs of processes that never share a frame.
- **Others**: the FAT32 reader (`Fat32`, `Volume`; Microsoft FAT32 File System
  Specification 1.03), the round-robin scheduler and the timer quantum
  (`Scheduler`), the configuration record and its FNV-1a checksum (`Config`), and
  mapping and drawing the framebuffer (`Window`, `Framebuffer`, `Drawing`).

`Bytes` and `Arithmetic` hold shared definitions.

Physical memory is a map from page numbers to pages, each a table of 512 words
or 4096 bytes; the properties are stated on the entries the words decode to.
Arithmetic is on unbounded integers with 64-bit and 32-bit wrap written out where
the code can reach it. Arguments that are pointers to structures are objects, so
null arguments do not occur.

Where code and documentation disagree, the model follows the code:

- `SB_OS_DESIGN.md` promises that re-initializing the allocator does not erase
  ownership of active pages. It erases the ownership of every page that is held
  (`PmmSpec.InitKeepsHeldIff`). Such a page is handed out again only if the new
  range or a range added later wholly contains it (`PmmSpec.HandedAfterInit`), and
  allocations alone reach it exactly in the first case (`PmmSpec.InitExposesIff`).
- `docs/ELF_LOADER.md` asks for an entry point inside an executable load segment; the
  code only demands that its page is mapped. The entry point is inside one exactly if
  the one segment that holds its page is executable and contains the entry address
  itself (`EntryPoint.EntryInCodeIff`). `EntryPoint.EntryOutsideCode` gives an image
  that fails in each of the two ways. The page of the entry point is executable
  exactly if that segment is (`EntryPoint.EntryExecutableIff`).
- `kernel/mm/address_space.c` means to keep the kernel's identity mapping in every
  space. A space created while a destroyed space is still loaded need not have it
  (`LoadedRoot.DestroyedWhileLoaded`); `Supervisor.RunGuardedIff` says exactly which
  runs keep it.
- `docs/MEMORY.md` speaks of 64 MiB of bootstrap memory; the linked allocator
  manages 256 MiB, and 64 MiB is only the end of the fallback range. The
  allocator is modelled for any page count, so `kernel/mm/pmm.c` is the same
  model with another count.

## Model

| member | source | states |
|---|---|---|
| `Words.BitLowMask` | kernel/mm/pmm_bootstrap.c:15-19 | bit i of the mask for a count is set exactly when i is below the count, for every count including 64 and more |
| `Words.BitClearLowest` | kernel/mm/pmm_bootstrap.c:21-25 | clearing by `w & (w - 1)` removes exactly the lowest set bit of any 64-bit word and no other |
| `Words.CountBits64` | kernel/mm/pmm_bootstrap.c:21-25 | the loop returns the number of set bit positions of any word |
| `Words.FirstSetBit64` | kernel/mm/pmm_bootstrap.c:27-31 | the loop finds a set bit below which none is set |
| `Pmm.FirstWordMasks` | kernel/mm/pmm_bootstrap.c:61-77 | the masks of the single-word case and of the first partial word select exactly the pages of the range in that word |
| `Pmm.LastWordMaskBits` | kernel/mm/pmm_bootstrap.c:97-106 | the mask of the last word selects exactly the pages below the end of the range, a full last word included |
| `Pmm.MaskedWord` | kernel/mm/pmm_bootstrap.c:65-71 | per bit, freeing under a mask gives reserved-or-held inside the mask and leaves the rest; reserving sets both bitmaps inside the mask only |
| `Pmm.UpdatedPages` | kernel/mm/pmm_bootstrap.c:44-107 | bitmaps updated on pages lo..hi-1 are, as page sets, the per-page specification on exactly those pages |
| `Pmm.ClippedRange` | kernel/mm/pmm_bootstrap.c:51-56 | rounding inward and clipping to the managed memory selects exactly the pages wholly inside the byte range |
| `Pmm.CountWord` | kernel/mm/pmm_bootstrap.c:33-42 | the number of free pages grows from one word to the next by the count of available bits of that word, the partial last word included |
| `Pmm.Pmm.SetPages` | kernel/mm/pmm_bootstrap.c:58-107 | single-word, first-partial, whole-word and last-partial cases together update every page of the range once and no other page |
| `Pmm.Pmm.SetRangeBits` | kernel/mm/pmm_bootstrap.c:44-107 | for every start, end and page count: freeing makes a page of the range available unless reserved or held, reserving marks the range unavailable and reserved, all other pages keep their state |
| `Pmm.Pmm.RecomputeFreeCount` | kernel/mm/pmm_bootstrap.c:33-42 | the cached counter becomes the number of available pages |
| `Pmm.Pmm.Reset` | kernel/mm/pmm_bootstrap.c:109-117 | every page becomes unavailable, none reserved, none held |
| `Pmm.Pmm.AddUsableRange` | kernel/mm/pmm_bootstrap.c:119-122 | the class state follows the set-of-pages specification and stays valid |
| `Pmm.Pmm.ReserveRange` | kernel/mm/pmm_bootstrap.c:124-127 | the class state follows the set-of-pages specification and stays valid |
| `Pmm.Pmm.Init` | kernel/mm/pmm_bootstrap.c:129-133 | reset followed by adding one range, from any earlier contents |
| `Pmm.Pmm.AllocPage` | kernel/mm/pmm_bootstrap.c:135-149 | takes the lowest free page of the set model and returns its address, 0 if there is none |
| `Pmm.Pmm.FreePage` | kernel/mm/pmm_bootstrap.c:151-164 | returns a held page to the set model; any other address changes nothing |
| `PmmSpec.LowestFree` | kernel/mm/pmm_bootstrap.c:135-149 | the search yields a free page with no free page below it, or none exactly when none is free |
| `PmmSpec.AllocValid` | kernel/mm/pmm_bootstrap.c:135-149 | allocation keeps the invariant, fails exactly on exhaustion, and hands out the minimum of the free set, which loses just that page |
| `PmmSpec.FreeValid` | kernel/mm/pmm_bootstrap.c:151-164 | freeing any address keeps reserved and held inside unavailable and the counter equal to the number of free pages |
| `PmmSpec.RunValid` | kernel/mm/pmm_bootstrap.c:109-164 | the invariant holds after every sequence of reset, add, reserve, init, alloc and free |
| `PmmSpec.HeldUntilFreed` | kernel/mm/pmm_bootstrap.c:135-164 | a held page is handed out again only after an operation that releases it |
| `PmmSpec.NoDoubleHandout` | kernel/mm/pmm_bootstrap.c:135-164 | in every run, two hand-outs of one page have a release of it between them |
| `PmmSpec.ReservedNeverHanded` | kernel/mm/pmm_bootstrap.c:124-149 | in every run without a re-initialization, a reserved page is never handed out |
| `PmmSpec.NullMeansExhausted` | kernel/mm/pmm_bootstrap.c:135-149 | with page 0 reserved, after every such run a null result means that no page is free, which is the counter being 0 |
| `PmmSpec.FreeIsNoOp` | kernel/mm/pmm_bootstrap.c:151-164 | a free changes nothing exactly when the address is unaligned or its page is not held; a second free never does anything |
| `PmmSpec.AllocFreeRoundTrip` | kernel/mm/pmm_bootstrap.c:135-164 | freeing the page just allocated restores the state |
| `PmmSpec.InitKeepsHeldIff` | SB_OS_DESIGN.md:797-803 | re-initialization keeps the record of held pages if and only if nothing was held |
| `PmmSpec.HandedAfterInit` | SB_OS_DESIGN.md:797-803 | over every run after a re-initialization, a page held before is handed out again only if the new range, or a range added since, wholly contains it |
| `PmmSpec.AddMakesFree` | kernel/mm/pmm_bootstrap.c:119-122 | adding a range that wholly contains a page makes it available exactly if it is neither reserved nor held, so a page whose owner was forgotten becomes available |
| `PmmSpec.FreePageIsReached` | kernel/mm/pmm_bootstrap.c:135-149 | allocations alone reach every free page |
| `PmmSpec.InitExposesIff` | SB_OS_DESIGN.md:797-803 | later allocations hand out a page that was in use if and only if the re-initialized range wholly contains it |
| `PmmSpec.InitCanHandOutAHeldPage` | SB_OS_DESIGN.md:797-803 | an input on which re-initialization lets a page still in use be handed out again |
| `Multiboot.ReserveTouched` | kernel/mm/pmm_multiboot.c:23-30 | every managed page the range touches becomes blocked, by rounding outward and clipping; an empty or backward range blocks nothing |
| `Multiboot.ImportEntry` | kernel/mm/pmm_multiboot.c:107-124 | one memory-map entry adds its region: usable if available and non-empty, blocked otherwise, nothing if it overflows |
| `Multiboot.ImportUsable` | kernel/mm/pmm_multiboot.c:112-120 | an available entry makes exactly the pages it wholly contains usable |
| `Multiboot.ImportEntries` | kernel/mm/pmm_multiboot.c:100-126 | the entry loop adds the regions of all entries of a tag, or fails exactly when the parse does |
| `Multiboot.ImportTag` | kernel/mm/pmm_multiboot.c:77-127 | one tag adds the regions the parse gives it: map entries, a module, or nothing |
| `Multiboot.WalkTags` | kernel/mm/pmm_multiboot.c:65-140 | the tag loop agrees with the parse of the whole information block, bounds, tag limit and end tag included |
| `Multiboot.FallbackToBootstrap` | kernel/mm/pmm_multiboot.c:32-37 | page by page: free exactly inside 16 to 64 MiB outside the kernel image, reserved exactly in the kernel image and at page 0, nothing held |
| `Multiboot.InitFromMultiboot` | kernel/mm/pmm_multiboot.c:39-148 | without fallback a page is free if and only if some available entry wholly contains it and nothing blocked touches it; with fallback the state is the fallback state; on every path page 0 and the kernel image are reserved |
| `Multiboot.OrderDoesNotMatter` | kernel/mm/pmm_multiboot.c:65-148 | two imports whose regions form the same set end in the same allocator state |
| `TagOrder.EntriesAreItems` | kernel/mm/pmm_multiboot.c:100-126 | scanning a map tag gives the regions of its entries, unless they exceed the entry limit together with those before |
| `TagOrder.TagsAreItems` | kernel/mm/pmm_multiboot.c:65-140 | walking the tags gives the regions of all listed entries and modules exactly if every tag is well formed, the chain ends properly and the totals are within the limits |
| `TagOrder.TagOrderDoesNotMatter` | kernel/mm/pmm_multiboot.c:39-148 | two blocks of one size listing the same entries and modules, in any order and spread over any tags, leave the allocator in the same state, fallback included |
| `InfoBlock.AlignRoundsUp` | kernel/mm/pmm_multiboot.c:129-134 | the next tag starts at the next multiple of eight |
| `InfoBlock.BlockParses` | kernel/mm/pmm_multiboot.c:52-140 | a block written byte by byte from any list of tags, each padded to eight bytes, is parsed as the regions of that list if and only if it lies below 1 GiB, has at most 64 KiB, 127 tags, 128 map entries and 32 modules, and has a map |
| `InfoBlock.BlockImports` | kernel/mm/pmm_multiboot.c:39-148 | such a block leaves free exactly the pages of 256 MiB that an available entry contains and no other region, the kernel image or the block touches |
| `BootModules.ModuleIsReserved` | kernel/mm/pmm_multiboot.c:77-86 | a successful import reserves every managed page that a listed module touches |
| `BootModules.FallbackHandsOutIff` | kernel/mm/pmm_multiboot.c:32-37 | after a fallback, allocations reach a page if and only if it lies in 16 to 64 MiB outside the kernel image, module or not |
| `BootModules.BootModuleIsKept` | kernel/process_exec.c:64-75 | after a successful import and over every run of processes from boot, a module page outside the boot tables keeps its contents, and no page of a live process and no page table is that page |
| `Multiboot.ReflectsReserves` | kernel/mm/pmm_multiboot.c:142-147 | a blocked region covering the kernel image leaves every kernel page reserved |
| `Multiboot.FallbackReserves` | kernel/mm/pmm_multiboot.c:32-37 | the fallback state reserves page 0 and every kernel page |
| `PageEntry.MaskedShift` | kernel/mm/address_space.c:34-37 | shifting right by k and masking n bits of a 64-bit word is division by 2^k modulo 2^n |
| `PageEntry.Indices` | kernel/mm/vmm.c:65-68 | the four index extractors are the four 9-bit fields of the address above bit 12 |
| `PageEntry.DecodeOpened` | kernel/mm/vmm.c:48-51 | setting writable and user bits in a present entry word is opening the decoded entry |
| `PageEntry.DecodeLink` | kernel/mm/vmm.c:59-61 | the word written for a new table decodes to a present link to that page with the requested bits |
| `PageEntry.DecodeUserLeaf` | kernel/mm/address_space.c:79-81 | the leaf word of a user mapping decodes to a present user entry with the requested write and no-execute bits and frame |
| `PageEntry.DecodeKernelLeaf` | kernel/mm/vmm.c:95-97 | the leaf word of a kernel mapping decodes to the requested frame and bits |
| `PageEntry.FieldNumber` | kernel/mm/vmm.c:7 | the masked address field of an entry is the page number modulo 2^40 |
| `EntryWords.DecodeNumber` | kernel/mm/vmm.h:6-9 | an entry word is present, writable, user, large and no-execute by bits 0, 1, 2, 7 and 63 of its number, and its frame is bits 12 to 51 |
| `EntryWords.UserLeafNumber` | kernel/mm/address_space.c:79-81 | the word of a user page is the physical address below 2^52 plus 5, plus 2 if writable, plus 2^63 if not executable |
| `EntryWords.KernelLeafNumber` | kernel/mm/vmm.c:95-97 | the word of a kernel page is the physical address below 2^52 plus 1, plus 2, 4 and 2^63 for the requested rights |
| `EntryWords.LinkNumber` | kernel/mm/vmm.c:59-61 | the word that links a table is its address plus 1, plus 2 and 4 for the requested rights, and never no-execute |
| `PageWords.AlignedIff` | kernel/mm/vmm.c:71-72 | the mask test for an unaligned address is the remainder by the page size |
| `PageWords.WordIndices` | kernel/mm/vmm.c:65-68 | the four index expressions on a 64-bit address are the indices the tree model uses |
| `PageWords.TableFromFrame` | kernel/mm/vmm.c:42-44 | the table an entry word points to is the page of the decoded frame |
| `PageWords.LinkDecodes` | kernel/mm/vmm.c:59-61 | the word written for a new table decodes to the link the model adds |
| `PageWords.UserLeafDecodes` | kernel/mm/address_space.c:79-81 | the word written for a user page decodes to the leaf the model adds |
| `PageWords.KernelLeafDecodes` | kernel/mm/vmm.c:95-97 | the word written for a kernel page decodes to the leaf the model adds |
| `PageWords.PageAddressNumber` | kernel/mm/vmm.c:139 | joining the masked entry and the page offset is the address of the frame plus the offset |
| `PageWords.LargeAddressNumber` | kernel/mm/vmm.c:135 | the same for a 2 MiB page, whatever low bits its entry holds |
| `PageWords.HugeAddressNumber` | kernel/mm/vmm.c:131 | the same for a 1 GiB page |
| `PageTables.SameWalk` | kernel/mm/vmm.c:125-140 | if the links in all upper tables lead to the same places, every position of the forest keeps its table |
| `PageTables.AttachSeparated` | kernel/mm/address_space.c:17-32 | hanging a fresh page into one tree keeps all tables of all trees distinct allocator pages |
| `Forests.EnsureGrows` | kernel/mm/address_space.c:17-32 | whatever ensure_table returns, trees stay separated, rights stay requested rights and only the one missing table is added; it fails exactly on a large page or exhaustion and then changes nothing |
| `Forests.GrowsUserRights` | kernel/mm/address_space.c:17-32 | opening shared links further never changes the effective rights of pages already mapped |
| `Forests.LeafWf` | kernel/mm/address_space.c:79-81 | writing a leaf keeps separation and the meaning of rights in every tree |
| `Walks.ReachGrows` | kernel/mm/address_space.c:70-75 | the three-level descent only grows its own tree, and on success ends at the level-1 table with write permission along the path when asked |
| `Walks.ReachFails` | kernel/mm/address_space.c:70-75 | without large pages in the way the descent fails exactly when more tables are missing than pages are free, and then no page is left |
| `Walks.GrowsLookup` | kernel/mm/address_space.c:17-32 | growing one tree changes no translation in any tree |
| `Walks.LeafLookup` | kernel/mm/address_space.c:79-81 | writing a leaf changes the translation of that one page of that one tree |
| `AddressSpace.TranslateIsLookup` | kernel/mm/address_space.c:85-106 | translation succeeds exactly on mapped user pages, keeps the page offset, and the rights combined along the walk are those of the mapping |
| `AddressSpace.MapUserEffect` | kernel/mm/address_space.c:58-83 | exact conditions of each result code; success binds that one page to the requested frame below 2^52 and rights, failure changes no translation of any space, and a failure with good arguments on an unmapped page means exhaustion |
| `Spaces.CreateEffect` | kernel/mm/address_space.c:39-56 | creation fails exactly on exhaustion; otherwise the new space maps nothing, its root is a fresh page and no other translation changes |
| `Spaces.DestroyEffect` | kernel/mm/address_space.c:114-118 | destruction gives back the root page, keeps every other space well formed and changes no translation |
| `Spaces.MapUserFrame` | kernel/mm/address_space.c:58-83 | a user mapping takes only tables of its own space and leaves kernel translations alone |
| `Vmm.TranslateSees` | kernel/mm/vmm.c:125-140 | kernel translation is identity below 1 GiB, the mapped frame plus offset above, and 0 if unmapped, with both windows read through one name |
| `Vmm.MapPageEffect` | kernel/mm/vmm.c:70-103 | exact conditions of each result code; success changes only the page with that low-48-bit number and its window twin, failure no translation |
| `Vmm.UnmapPageEffect` | kernel/mm/vmm.c:105-123 | exact success condition and reported physical address; success removes that page and its twin only, failure changes nothing at all |
| `Vmm.KernelReach` | kernel/mm/vmm.c:80-91 | descending for a kernel page keeps the identity map, the shared window table and all separation |
| `Boot.InitIsGood` | kernel/mm/vmm.c:142-169 | from the tables the boot code builds, initialization yields separated kernel tables with the shared window and the identity map |
| `Boot.InitEntries` | boot/boot.S:39-59 | every entry of the six static tables after initialization |
| `Runs.StepRefines` | kernel/mm/address_space.c:39-118 | each operation on any of the spaces or on the kernel tree is one update of plain partial maps, or none if it failed |
| `Runs.RunRefines` | kernel/mm/address_space.c:39-118 | every run of create, map, destroy, kernel map and kernel unmap refines the run on partial maps |
| `Runs.UserTranslation` | kernel/mm/address_space.c:85-106 | in every good state a live space translates and grants rights exactly as its partial map says |
| `Runs.KernelTranslation` | kernel/mm/vmm.c:125-140 | in every good state the kernel translates exactly as its partial map says, identity below 1 GiB |
| `Runs.Isolation` | kernel/mm/address_space.c:39-118 | over every run, operations on other spaces leave a live space with the same translations |
| `Runs.MappingPersists` | kernel/mm/address_space.c:58-83 | over every run, a page once mapped keeps its frame and rights until its space is created anew or destroyed |
| `Runs.NotRemapped` | kernel/mm/address_space.c:77-78 | mapping an already mapped page never succeeds |
| `Runs.BootedIsGood` | boot/boot.S:39-59 | the state after boot satisfies the invariant of every run |
| `Runs.KernelWindows` | kernel/mm/vmm.c:70-169 | over every run from boot, the first GiB translates to itself and the windows at 2^38 and 2^39 translate alike |
| `Supervisor.CreateGuardedIff` | kernel/mm/address_space.c:39-56 | whatever root is loaded, a created space shares the lower half of the kernel if and only if entry 0 of that root leads to it and its page is not the one being handed out |
| `Supervisor.LiveRootIsSafe` | kernel/mm/address_space.c:48-53 | the kernel's root and every live root meet that condition |
| `Supervisor.StepGuardedIff` | kernel/mm/address_space.c:39-118 | one operation keeps the lower half of every live space the kernel's own if and only if it is no creation or finds a safe root loaded |
| `Supervisor.SupervisorOnly` | kernel/mm/address_space.c:52-53 | through any live root the first GiB translates to itself and never with the user right |
| `Supervisor.RunGuardedIff` | kernel/mm/address_space.c:39-118 | every state of a run keeps the lower half of every live space the kernel's own if and only if each creation in it finds a safe root loaded |
| `Supervisor.KernelHalfIsSupervisorOnly` | kernel/mm/address_space.c:52-53 | over every run from boot with such creations, whatever is mapped and with whatever rights, no live space reaches the first GiB with the user right |
| `LoadedRoot.LoadedRunIsGuarded` | kernel/mm/address_space.c:108-112 | with the loaded root part of the state: over every run from boot that never destroys or overwrites the space it runs in, processes prepared included, the loaded root stays live and no live space reaches the first GiB with the user right |
| `LoadedRoot.DestroyedWhileLoaded` | kernel/mm/address_space.c:114-118 | from every state with a free page and an unused structure: create, activate, destroy, create again ends in a live space that reaches nothing of the first GiB, because the freed root is handed out and zeroed before it is read |
| `Memory.Memory.ZeroPage` | kernel/mm/address_space.c:13-15 | the loop leaves a table of zero words, which decodes to one without any present entry |
| `Memory.Memory.EnsureTable` | kernel/mm/vmm.c:46-63 | the code on words in place computes the table and state of the model, through decoding |
| `Memory.Memory.ReachTable` | kernel/mm/vmm.c:80-91 | the descent on words in place computes the table and state of the model |
| `Memory.Memory.VmmInit` | kernel/mm/vmm.c:142-169 | builds the bootstrap tables as words, once: a later call changes nothing |
| `Memory.Memory.VmmMapPage` | kernel/mm/vmm.c:70-103 | the code on words in place computes the state and code of the model, and on success the stored word is the number of that address and those rights |
| `Memory.Memory.VmmUnmapPage` | kernel/mm/vmm.c:105-123 | the code on words in place computes the state, code and physical address of the model |
| `Memory.Memory.VmmTranslate` | kernel/mm/vmm.c:125-140 | the walk over words, with its three page sizes, gives the translation of the model |
| `Memory.Memory.AllocZeroed` | kernel/process_exec.c:16-20 | takes the lowest free page and fills it with zeros, or reports that none is free |
| `Memory.Memory.CopyIn` | kernel/elf_loader.c:94-96 | the byte loop overwrites exactly the given stretch of the page |
| `Memory.AddressSpace.Create` | kernel/mm/address_space.c:39-56 | the in-place code computes the specified state; the structure keeps its old root on failure |
| `Memory.AddressSpace.MapUser` | kernel/mm/address_space.c:58-83 | the code on words in place computes the state and code of the model, and on success the stored word is the number of that address and those rights |
| `Memory.AddressSpace.TranslateUser` | kernel/mm/address_space.c:85-106 | the walk over words gives the translation of the model, or none |
| `Memory.AddressSpace.Destroy` | kernel/mm/address_space.c:114-118 | gives the root page back and clears the structure; an empty structure is left alone |
| `Elf.CheckedAdd` | kernel/elf.c:3-7 | the sum, or nothing exactly when it exceeds 64 bits |
| `Elf.Validate` | kernel/elf.c:9-51 | accepts exactly the images with a good header, a program-header table inside the image and loadable segments whose file part lies inside the image and the memory size |
| `ElfLoader.CopyInBounds` | kernel/elf_loader.c:78-91 | for a validated segment the bounds checks between allocation and mapping cannot fail, so no frame is lost there |
| `ElfLoader.CopyIsContent` | kernel/elf_loader.c:71-98 | zeroing and copying the overlap gives the page its file bytes and zeros everywhere else |
| `ElfLoader.LoadPage` | kernel/elf_loader.c:68-105 | one page is placed with its contents and rights, or nothing is; it fails with room for the page only when memory ran out |
| `ElfLoader.LoadSegment` | kernel/elf_loader.c:59-110 | all pages of the segment are placed on pages of its own; success needs room for every page, and failure despite room means memory ran out |
| `ElfLoader.LoadImage` | kernel/elf_loader.c:28-116 | success places every loadable segment and nothing else, on disjoint pages, with the entry page among them; an image fails only if it is not loadable or memory ran out, and only loadable images succeed |
| `ElfLoader.LoadedByte` | kernel/elf_loader.c:59-110 | every address on a page of a loaded segment reaches the file byte or zero, with the rights of the segment |
| `ElfLoader.SegmentByte` | kernel/elf_loader.c:59-110 | byte k of a loaded segment is the image byte below the file size and zero up to the memory size |
| `Loading.PlaceStep` | kernel/mm/address_space.c:58-83 | taking, filling and mapping a frame places exactly one page; on failure, after giving the frame back, nothing was placed, and if there was room at most that frame is free |
| `Loading.FrameKeeps` | kernel/mm/pmm_bootstrap.c:135-149 | taking and filling a frame that is not yet mapped changes no table and no translation |
| `ProcessExec.Conservation` | kernel/process_exec.c:10-62 | a page is newly held exactly when it is a new table of the space or a newly mapped frame, never both, and nothing held was lost |
| `ProcessExec.OnePath` | kernel/process_exec.c:10-62 | each such page is reached by one path only |
| `ProcessExec.StackPage` | kernel/process_exec.c:16-26 | one zeroed writable non-executable page is placed, or nothing is |
| `ProcessExec.MapUserStack` | kernel/process_exec.c:10-29 | all pages of the range are placed; success needs an aligned range with room, and failure despite that means memory ran out |
| `ProcessExec.PrepareElf` | kernel/process_exec.c:31-62 | success or failure, exactly the accounted tables and frames are taken; success prepares image and stack; failure means an image that cannot be prepared or exhausted memory, also when no space could be created, and leaves the process record as it was |
| `ProcessExec.PreparedSees` | kernel/process_exec.c:31-62 | a prepared process reads its segments byte for byte with their rights, a zero stack, and has a mapped entry point |
| `ProcessExec.PlacedTranslates` | kernel/process_exec.c:10-62 | a placed page translates to its frame, holds its bytes and grants its rights |
| `EntryPoint.OneHoldsEntry` | kernel/elf_loader.c:107-113 | exactly one segment of a loadable image holds the page of the entry point |
| `EntryPoint.EntryExecutableIff` | kernel/elf_loader.c:107-113 | a prepared process can execute the page of its entry point if and only if that segment is executable |
| `EntryPoint.EntryInCodeIff` | docs/ELF_LOADER.md:31 | some executable load segment contains the entry point if and only if the segment holding its page is executable and its bytes contain the entry address |
| `EntryPoint.EntryOutsideCode` | kernel/elf_loader.c:107-113 | two images that can be prepared in any empty space and whose entry point is in no executable segment: one segment is not executable, the other is but ends before the entry point |
| `ProgramFile.AcceptedIff` | kernel/elf.c:9-51 | exactly which files validation accepts, in the bytes and fields of the file |
| `ProgramFile.PreparedFromFile` | kernel/elf_loader.c:46-105 | in terms of the file alone: byte x of a segment is found at its moved address, from the offset in its program header or zero, on a page that is writable exactly for PF_W and executable exactly for PF_X |
| `ProgramFile.PreparedStart` | kernel/process_exec.c:48-61 | the process starts at the moved entry point, on the first user page for a shared object, above a stack of zeroed, writable, non-executable pages from 0x80000FC000 to 0x8000100000 |
| `ProgramFile.OnlyStackBeside` | kernel/process_exec.c:48-52 | beside the image exactly the four stack pages are placed |
| `ProcessRuns.CreateApart` | kernel/process.c:14-36 | creating a process keeps every mapped frame owned by one page of one live space, and no such frame a table |
| `ProcessRuns.DestroyApart` | kernel/process.c:73-80 | destroying a process keeps it too |
| `ProcessRuns.PrepareApart` | kernel/process_exec.c:31-62 | preparing a process, successfully or not, keeps it too |
| `ProcessRuns.RunSound` | kernel/process.c:14-80 | every state of every run of create, prepare, destroy and kernel mappings, whatever root is loaded, has separated trees and frames apart |
| `ProcessRuns.ProcessesApart` | kernel/process_exec.c:10-62 | over every run from boot, two live processes never share a frame, one never maps a frame twice, and no frame is a page table |
| `ProcessTable.Table.Init` | kernel/process.c:6-12 | all slots empty and the counter 0 |
| `ProcessTable.Table.Create` | kernel/process.c:14-36 | takes the lowest unused slot; fails exactly for pid 0, a full table or exhausted memory and then changes nothing; the counter stays the number of slots in use and exactly those own a space |
| `ProcessTable.Table.Prepare` | kernel/process_exec.c:31-62 | prepares the process of any slot: a slot without a space gets one first, exactly if a page is free; only that slot changes, and the rest is one prepare step of the process runs; the table stays consistent exactly if the slot was in use or no space was created |
| `ProcessTable.Table.Destroy` | kernel/process.c:73-80 | frees the slot and its root page, an unused slot is left alone; counter, ownership and separation are kept |
| `ProcessTable.Table.Get` | kernel/process.c:52-60 | finds the lowest slot in use with that pid, exactly if there is one |
| `ProcessTable.InUseBound` | kernel/process.c:14-17 | the counter reaches the capacity exactly when no slot is unused |
| `ProcessTable.CreateDestroyRoundTrip` | kernel/process.c:14-80 | creating and destroying a process restores the allocator and the table of spaces |
| `Fat32.Mount` | kernel/fs/fat32.c:61-107 | accepts exactly the boot sectors with signature, 512-byte sectors, no zero field and a data area starting on the device below 2^32 in numbers that do not wrap, and records their fields |
| `Fat32.ReadFile` | kernel/fs/fat32.c:158-222 | for arbitrary FAT contents the read ends, succeeds exactly when the request is allowed and every byte is on the chain and the device, fills exactly those bytes, and writes nothing past the request |
| `Fat32.ReadableIff` | kernel/fs/fat32.c:158-222 | on a well-formed chain a non-empty range is readable exactly when the chain has ceil((offset + length) / cluster size) clusters |
| `Fat32.FilledIsSlice` | kernel/fs/fat32.c:158-222 | the bytes read are that slice of the concatenated chain |
| `Fat32.AdjacentReads` | kernel/fs/fat32.c:158-222 | adjacent reads concatenate to one read |
| `Fat32.BeyondChain` | kernel/fs/fat32.c:28-41 | no byte at or beyond the end of the chain is readable |
| `Fat32.FormatName` | kernel/fs/fat32.c:43-59 | base and extension without trailing blanks, joined by a dot only if there is an extension |
| `Fat32.ReadRootEntry` | kernel/fs/fat32.c:109-156 | entry i is returned exactly when bytes 32i to 32i+31 of the root chain are readable and form a used entry, and is their decoding; ends on cyclic chains too |
| `Volume.ClusterOnDevice` | kernel/fs/fat32.c:23-26 | byte w of cluster c is byte w from sector firstData + (c - 2) * sectorsPerCluster of the device |
| `Volume.FatOnDevice` | kernel/fs/fat32.c:28-41 | the next cluster of c is the low 28 bits of the four bytes at 4c in the FAT, which starts at the first sector after the reserved ones |
| `Volume.ChainLength` | kernel/fs/fat32.c:184-191 | the chain the reader follows is exactly the list of clusters that the FAT links, up to an entry below 2 or from 0x0FFFFFF8 on |
| `Volume.ReadsDevice` | kernel/fs/fat32.c:158-222 | the bytes that a read returns are those of the device at the addresses of the linked clusters |
| `Volume.ReadableIffWithin` | kernel/fs/fat32.c:158-222 | a request of a file whose clusters are on the device is readable if and only if it ends within them |
| `Volume.NameReadBack` | kernel/fs/fat32.c:43-59 | a base and an extension padded with blanks to eight and three characters are shown as base, dot, extension |
| `Volume.EntryReadBack` | kernel/fs/fat32.c:142-155 | a directory entry laid out as the specification says is read back field by field, and is skipped exactly if free, deleted or a long name |
| `Volume.RootOnDevice` | kernel/fs/fat32.c:109-156 | root entry i is read from byte 32i of the clusters of the root directory on the device |
| `Scheduler.InitGood` | kernel/scheduler.c:43-57 | the initial state satisfies the invariant, with task 1 of priority 128 running |
| `Scheduler.AddGood` | kernel/scheduler.c:72-86 | adding keeps the invariant; exact conditions of each code; success appends a ready task without runtime |
| `Scheduler.PickIsNext` | kernel/scheduler.c:88-100 | in a good state the search loop always moves to the next task in ring order |
| `Scheduler.PickGood` | kernel/scheduler.c:88-100 | picking keeps exactly one running task, the current one |
| `Scheduler.RunGood` | kernel/scheduler.c:43-115 | in every reachable state one task runs and it is current, ids are distinct and non-zero, and runtimes sum to the tick counter modulo 2^64 |
| `Scheduler.PickedWithin` | kernel/scheduler.c:88-100 | a task is picked within its ring distance in picks, explicit or made by the timer, with ticks and additions in between |
| `Scheduler.PickedWithin64` | kernel/scheduler.c:88-100 | any present task is picked within 64 picks, explicit or made by the timer |
| `Scheduler.PicksPerTimer` | kernel/timer.c:97-102 | ten timer interrupts bring at least one pick once there are two tasks, also where the 64-bit counter wraps |
| `Scheduler.ScheduledWithin` | kernel/timer.c:97-102 | any present task becomes the current one within 640 timer interrupts, whatever tasks are added meanwhile |
| `Scheduler.FairShare` | kernel/timer.c:97-102 | after T timer ticks each task has gained exactly 10*(T div 10n) plus its clamped share of the current round |
| `Scheduler.GainsClose` | kernel/timer.c:97-102 | the gains of any two tasks differ by at most one quantum |
| `Scheduler.TaskTable.SchedulerInit` | kernel/scheduler.c:43-57 | the loop clears the table down to the bootstrap task |
| `Scheduler.TaskTable.SchedulerTick` | kernel/scheduler.c:59-63 | the class state follows the tick of the specification |
| `Scheduler.TaskTable.AddKernelTask` | kernel/scheduler.c:72-86 | the duplicate search and insertion follow the specification, code included |
| `Scheduler.TaskTable.SchedulerPickNext` | kernel/scheduler.c:88-100 | the search loop follows the specification |
| `Scheduler.TaskTable.TimerInterrupt` | kernel/timer.c:97-102 | counts the tick and picks on every tenth, 64-bit wrap included |
| `Config.ChecksumBytes` | kernel/config.c:3-11 | the loop computes the FNV-1a fold |
| `Config.PrimeInjective` | kernel/config.c:3-11 | multiplying by the FNV prime modulo 2^32 is injective |
| `Config.MixInjective` | kernel/config.c:3-11 | one FNV-1a step is injective in the hash for a fixed byte and in the byte for a fixed hash |
| `Config.OneByteChangesHash` | kernel/config.c:3-11 | two byte strings differing in exactly one place have different hashes |
| `Config.ReachableValidates` | kernel/config.c:21-58 | every record reached from the defaults by the setters validates |
| `Config.OneByteInvalidates` | kernel/config.c:34-43 | changing any single byte of a valid record, checksum bytes included, makes it invalid |
| `Config.XorDigit` | kernel/config.c:7 | a binary digit of the exclusive or is 1 exactly where the digits differ |
| `Config.PublishedValues` | kernel/config.c:3-11 | the hash of the empty string and of the letter a are the published FNV-1a values |
| `Config.RecordLayout` | kernel/config.h:16-26 | each field of the record lies at its offset |
| `Config.DefaultBytes` | kernel/config.c:21-32 | the bytes of the default record, with the checksum of the first sixteen and four zeros |
| `Config.LanguageBytes` | kernel/config.c:45-50 | one of the four languages changes byte 12 and the checksum only, any other nothing |
| `Config.FirstBootBytes` | kernel/config.c:52-58 | completing the first boot sets byte 14, counts up bytes 8 to 11 modulo 2^32 and renews the checksum |
| `Config.ConfigRecord.SetDefaults` | kernel/config.c:21-32 | the record becomes the sealed defaults |
| `Config.ConfigRecord.Validate` | kernel/config.c:34-43 | accepts exactly the records with the fixed fields, legal values and a matching checksum |
| `Config.ConfigRecord.SetLanguage` | kernel/config.c:45-50 | a legal language is stored and the record resealed, any other is refused and changes nothing |
| `Config.ConfigRecord.MarkFirstBootComplete` | kernel/config.c:52-58 | the flag is set, the sequence number advances with 32-bit wrap, and the record is resealed |
| `Boot.SomeBootState` | boot/boot.S:39-59 | states meeting the boot conditions exist for every memory size that holds the tables |
| `Startup.ProbeAllocator` | kernel/kernel.c:212-214 | the first allocation given back at once leaves the allocator as it was, and succeeds exactly if a page is free |
| `Startup.Start` | kernel/kernel.c:205-217 | whatever the Multiboot information holds, start-up ends in a state with no page held, separated trees, frames apart and the kernel's own root loaded, for any number of address-space structures |
| `Framebuffer.Framebuffer.Rollback` | kernel/framebuffer.c:192-195 | unmapping the pages mapped so far restores every kernel and user mapping |
| `Framebuffer.Framebuffer.CheckGeometry` | kernel/framebuffer.c:61-75 | the check sequence accepts exactly the descriptions with a direct mode, a depth of 1 to 32 bits, components inside the pixel and a range that does not overflow |
| `Framebuffer.Framebuffer.Map` | kernel/framebuffer.c:173-201 | all or nothing: on success all pages are mapped in order and nothing else changed, on failure every mapping is as before; it succeeds exactly if the geometry and range fit, no page of the window was mapped, and the free pages number at least the distinct tables the window lacks |
| `Window.StepRoom` | kernel/framebuffer.c:188-197 | after the pages before it, a page can be mapped if and only if the state before the first page had room for all of them |
| `Vmm.MapPageCost` | kernel/mm/vmm.c:70-103 | a successful mapping takes one free page for each table missing on the way and hangs tables nowhere else |
| `Framebuffer.MappedTranslates` | kernel/framebuffer.c:173-201 | below 2^52, the k-th byte from the mapped address translates to the k-th byte of the framebuffer |
| `Framebuffer.MappedSpan` | kernel/framebuffer.c:173-201 | no more than 2^36 pages can ever be mapped, so a mapped framebuffer spans at most 2^48 bytes |
| `Drawing.Canvas.StorePixel` | kernel/framebuffer.c:102-105 | the byte loop stores the low bytes of the pixel word, least significant first |
| `Drawing.Canvas.FindTarget` | kernel/framebuffer.c:77-93 | the target is the mapped window, or the physical range if it ends below 1 GiB, and none otherwise |
| `Drawing.BytesReadBack` | kernel/framebuffer.c:102-105 | the first n bytes stored for a pixel read back as its low 8n bits |
| `Drawing.WholeWord` | kernel/framebuffer.c:102-105 | four stored bytes load as the pixel word |
| `Drawing.FewestBytes` | kernel/framebuffer.c:62 | a pixel takes the fewest bytes that hold its bits |
| `Drawing.Canvas.DrawPixel` | kernel/framebuffer.c:220-232 | the result code and memory of the single-pixel specification, the overflow refusal included; on success the place of the pixel reads back as the low bits of the word |
| `Drawing.Canvas.FillRect` | kernel/framebuffer.c:234-260 | exact conditions of each result code, and the memory that storing each pixel of the clipped rectangle leaves; with rows no longer than the pitch every pixel of it reads back as the low bits of the word |
| `Drawing.FillIsPlots` | kernel/framebuffer.c:220-260 | filling a rectangle leaves the memory that calling the single-pixel function on each of its pixels leaves, refusals included |
| `Drawing.Canvas.Clear` | kernel/framebuffer.c:203-218 | leaves the memory that filling the whole screen leaves, where every pixel reads back as the low bits of the word |
| `Drawing.RectPaints` | kernel/framebuffer.c:234-260 | with rows no longer than the pitch, each pixel of the rectangle has the new word and every other pixel its old bytes |
| `Drawing.RectLeaves` | kernel/framebuffer.c:234-260 | whatever the geometry, only bytes of pixels of the rectangle change |
| `Drawing.PaddingUntouched` | kernel/framebuffer.c:234-260 | with rows no longer than the pitch, row padding is untouched |
| `Drawing.OutsideUntouched` | kernel/framebuffer.c:203-260 | with rows no longer than the pitch, nothing outside the framebuffer is touched |
| `Drawing.StaysInsideIffPadded` | kernel/framebuffer.c:61-75 | clearing leaves all memory outside the framebuffer alone, for every memory and colour, if and only if rows are no longer than the pitch |
| `Drawing.AcceptedButNotPadded` | kernel/framebuffer.c:61-75 | an accepted geometry whose clearing writes past the end of the framebuffer |
| `Drawing.NeverRefuses` | kernel/framebuffer.c:220-232 | identity mapped or mapped by the kernel, padded or not, the overflow refusal never happens |
| `Drawing.MapGivesReady` | kernel/framebuffer.c:77-93 | a framebuffer that mapping left behind meets the condition of these results |
| `Drawing.DrawsToScreen` | kernel/framebuffer.c:173-232 | through a mapped framebuffer byte b of pixel (x, y) goes to the physical address base + y * pitch + x * depth + b |
| `Drawing.OnePixelFill` | kernel/framebuffer.c:234-260 | filling a one-pixel rectangle is drawing that pixel |
| `Drawing.TargetFits` | kernel/framebuffer.c:77-93 | padded or not, no byte drawn wraps around the address space |

## Left out

- Port I/O, serial debug output, `invlpg`, interrupt controllers, ATA and PCI: hardware effects without a property of the model.
- Context switching, system-call and ring-3 entry stubs: task contexts stay zero in the C code, so `scheduler_switch_to` returns early in every run.
- Enforcement of the no-execute bit: rights are stated over entry bits.
- Reclaiming tables and frames when a space is destroyed: the code returns the root page only.
- `process_activate` and threads of a process: they would only add easy members; activating an address space is a step of `LoadedRoot`.
- LoadedRoot.DestroyedWhileLoaded: states what the page tables hold, not what the processor does while it still uses a freed root.
- `multiboot_find_module` (finding a module by name), heap, setup wizard, panic screen, shell and self-tests: easy or user interface.
- Boot.InitEntries: the boot code's own instructions are not modelled; its three tables are taken as the entries it writes.
- `sb_framebuffer_init` and `pack_pixel`: the framebuffer description and the packed pixel word are parameters.
- Device errors and sector sizes other than 512 bytes: the block device is a sequence of 512-byte sectors that always answers in range.
- Multiboot.InitFromMultiboot: the information block is an immutable byte sequence at least as long as the largest accepted size, and the kernel image bounds are page aligned as the linker script makes them.
- ElfLoader.LoadImage: the image is an immutable byte sequence. `BootModules.BootModuleIsKept` shows this of a boot module after a successful import; after a fallback modules are not reserved (`BootModules.FallbackHandsOutIff`).
- ProcessTable.Table.Create: slots are values without thread records.
- Framebuffer.Framebuffer.Map: page tables added for pages that are rolled back stay in the kernel tree, as in the code, so only mappings are restored.
