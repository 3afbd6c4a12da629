# Models of XNU's self-contained algorithms

Dafny models of parts of the XNU kernel that carry hard invariants of their own, with proofs of what
they keep. `dafny verify dfyconfig.toml` checks all of them.

| file | what it models |
|---|---|
| `LzssTree.dfy` | the encoder's 256 binary search trees in flat arrays, keyed by the strings of a ring buffer |
| `LzssDecode.dfy` | the LZSS decoder, and what a compressed stream stands for |
| `Adler32.dfy` | the Adler-32 checksum with its deferred modulo |
| `UbsanLog.dfy` | the lock-free violation log of UBSan: any number of writers, one reader that resets |
| `UbsanLap.dfy` | runs of that log in which a thread is overtaken: by a full lap, and by a reset |
| `KasanShadow.dfy` | KASan's shadow bytes: poisoning, and the tests made on them |
| `KasanHeap.dfy` | runs of heap allocations and frees through the KASan quarantine |
| `KasanHeader.dfy` | the header, checksum and backtrace KASan keeps in the redzones, and the checks on free |
| `KasanRun.dfy` | runs of the heap with its memory: headers, freed blocks and user writes |
| `ShadowPages.dfy` | the page tables that map the shadow |
| `Blacklist.dfy` | the dynamic blacklist: a call-site cache in front of a search through loaded ranges |
| `MacPolicy.dfy` | the registry of MAC policies |
| `MacBusy.dfy` | the busy count and exclusive hold on that registry, and the walk of a MAC check |
| `MacRace.dfy` | a run in which a MAC check misses a policy because the list's counters move |
| `MacGrow.dfy` | a run in which it misses a static policy because the list's array is freed |
| `KextVersion.dfy` | kext version strings and their numbers |
| `Kcdata.dfy` | the kcdata layout and its iterator |
| `Bits.dfy` | numbers bit by bit |
| `Bytes.dfy` | bytes, and numbers as little-endian bytes |
| `Wrappers.dfy` | the option type |

## How the models are built

Code that works in place is imperative here too: the encoder state, the quarantine, the page tables, the
blacklist and the policy registry are classes, and the loops of the source are loops. Each method is tied
to a function or predicate on values, and what the source promises is proved about those, mostly over
whole runs. The two concurrent protocols are state machines whose steps are atomic and may interleave in
any order.

Assumptions, each taken from the source:

- **LZSS.** `insert_node` is called for a position that is in no tree. The decoder's room for output is at
  least one byte. The decoder leaves the last 18 cells of its ring uninitialised, so what the stack held
  there is a parameter.
- **UBSan log.** A reserving swap does not span a full lap of 2048 entries, because preemption is disabled;
  `UbsanLap.LapNeeded` is a run that shows what happens without this. One handler of the sysctls runs at a time.
- **KASan.** Poisoning and checks are enabled. The allocator hands out disjoint, granule-aligned blocks whose
  redzones are at least sixteen bytes and whose sizes fit the bit fields. A freed block is no larger than
  the quarantine. `__nosan_crc16` and the unwinder are arbitrary functions.
- **Page tables.** Shadow addresses lie in the two PML4 slots set aside for them, as the source asserts. A
  range of memory ends at or below the top of the 64-bit address space.
- **Blacklist.** Executable segments keep a byte away from each other, since a lookup counts the end address
  as inside; `Blacklist.ApartExact` shows why that is needed. The red-black tree is taken as the set of
  ranges it holds; `Blacklist.CompareOrder` shows that its comparison orders them.
- **MAC policies.** The growable configuration of macOS, with seven label slots. Run theorems assume that
  policies loaded before the framework is up cannot be unloaded, as the comment on the policy list says, and
  that there is one of them; the code enforces neither, and `MacPolicy.UnloadExact`, `MacPolicy.LoadFixed`,
  `MacPolicy.StaticUnloaded` and `MacPolicy.OnlyPolicyUnloaded` say exactly what follows. In `MacBusy.dfy`
  the framework is up. A registration is ten writes, the free of an outgrown array among them, and an
  unregistration five, in the order of the source. A pass over the static policies is three loads, and
  the two words of the unlocked test are loaded one at a time in either order. What freed memory holds is
  arbitrary.
- **kcdata.** Iterators are compared in 64-bit arithmetic. What a read past the end of the buffer returns is
  a parameter.

These promises turn out not to hold as stated, and are proved with their exact condition:

- a MAC check can miss a policy that is loaded all the while, because its unlocked test compares two words
  that a registration raises one after the other (`MacBusy.CheckExact`, `MacBusy.CheckComplete`,
  `MacRace.PolicyMissed`, `MacRace.GapReached`);
- a MAC check can miss even a static policy, because a registration that makes room frees the array before
  it stores the pointer to the new one, and the walk over the static policies holds neither lock nor count
  (`MacBusy.CheckExact`, `MacBusy.CheckComplete`, `MacGrow.StaticPolicyMissed`, `MacGrow.FullReached`);
- the violation log can drop a record although it is empty, because the full test compares an index read
  before a reset with a tail read after it (`UbsanLog.DropExact`, `UbsanLap.DroppedOnEmpty`);
- a static policy can be unloaded if it was loaded early and allows it (`MacPolicy.UnloadExact`,
  `MacPolicy.StaticUnloaded`);
- unloading the only policy, if it is not static, wraps the highest index around (`MacPolicy.UnloadExact`,
  `MacPolicy.OnlyPolicyUnloaded`);
- mapping the shadow of a range can miss its end, if the range straddles granules or ends at the top of the
  address space (`ShadowPages.CoverExact`, `ShadowPages.StraddlingMissed`, `ShadowPages.TopmostMissed`), and
  so can mapping it by superpages (`ShadowPages.SuperCoverExact`, `ShadowPages.SuperMissed`);
- the iterator test accepts an item whose header or data wrap around the address space
  (`Kcdata.ValidExact`, `Kcdata.WrapAccepted`).

## Model

| member | source | states |
|---|---|---|
| LzssTree.EncodeState.constructor | libkern/mkext.c:187-203 | The initial state is well formed: no node is in a tree, and the ring starts with 4078 spaces. |
| LzssTree.EncodeState.InsertNode | libkern/mkext.c:213-265 | For a position in no tree: all 256 trees stay well formed (links agree both ways, in-order strictly sorted, rooted by first byte); exactly that node enters and exactly a node with an equal string leaves; the recorded length is the longest common prefix over all nodes that were in the trees, and the recorded position reaches it. |
| LzssTree.EncodeState.Search | libkern/mkext.c:219-253 | The descent ends at the empty link where the string belongs or at a node with the same string, and no node off the search path matches in more bytes than the best one on it. |
| LzssTree.EncodeState.Compare | libkern/mkext.c:242-246 | The comparison loop gives the length of the common prefix, and its sign is the lexicographic order of the two strings. |
| LzssTree.EncodeState.DeleteNode | libkern/mkext.c:268-301 | Exactly this node leaves, every other node stays, and all trees stay well formed and sorted, in every shape, although writes go through the cell of the null index. |
| LzssTree.Descend | libkern/mkext.c:224-253 | One step down: everything on the side not taken is ordered against the string and matches no better than the node just compared. |
| LzssTree.LeafDone | libkern/mkext.c:225-241 | Linking a new leaf below the last node keeps the trees well formed and sorted and adds exactly the leaf. |
| LzssTree.SwapDone | libkern/mkext.c:254-264 | Putting the new node in the place of the one with an equal string keeps the trees well formed and replaces exactly that node. |
| LzssTree.OneChildDone | libkern/mkext.c:276-279 | Deleting a node with at most one child lifts that child and keeps the trees well formed. |
| LzssTree.NearDone | libkern/mkext.c:281-300 | Deleting a node whose left child is its predecessor lifts that child. |
| LzssTree.FarDone | libkern/mkext.c:282-300 | Deleting a node whose predecessor lies deeper moves the predecessor into its place, and in-order loses only the node. |
| LzssDecode.MatchExact | libkern/mkext.c:149-160 | The two bytes of a match can be read off its position and length, and no other two bytes are that match. |
| LzssDecode.DecodePack | libkern/mkext.c:108-174 | Any list of tokens, packed eight to a flag byte with the lowest bit first, decodes to exactly its expansion. |
| LzssDecode.ParsePack | libkern/mkext.c:127-160 | Packing a list of tokens and parsing the bytes gives the list back. |
| LzssDecode.CopyRepeats | libkern/mkext.c:161-169 | A match continues the history with a fixed period, also when the copy runs into its own output. |
| LzssDecode.RingPush | libkern/mkext.c:146-147 | Writing a byte at the write cell keeps the ring equal to the latest 4096 bytes of the history. |
| LzssDecode.RingRead | libkern/mkext.c:161-162 | A ring cell holds the byte at the distance back that its position stands for. |
| LzssDecode.FlagOrder | libkern/mkext.c:127-136 | The flags of a group are the bits of its flag byte from the lowest to the highest, in numbers. |
| LzssDecode.MatchBytes | libkern/mkext.c:149-169 | The bytes i and j of a match add j % 16 + 3 bytes, each the latest in its cell of a ring of 4096 that starts at cell 4078, counted from cell i + 256 * (j / 16). |
| LzssDecode.OneMatch | libkern/mkext.c:108-174 | What a stream of one match decodes to, byte by byte: spaces, uninitialised cells, and bytes the match itself has written. |
| LzssDecode.OneLiteral | libkern/mkext.c:136-147 | A set flag announces a literal. |
| LzssDecode.FlagBits | libkern/mkext.c:128-136 | The flag word, loaded with eight marker bits above the flags, gives out the flags in order and runs out after exactly eight. |
| LzssDecode.CopyMatch | libkern/mkext.c:161-169 | The copying loop writes the next bytes of the periodic continuation, stops when the output is full, and keeps ring and write position in step. |
| LzssDecode.OneToken | libkern/mkext.c:136-170 | One token extends output and ring as its meaning says, and it is the last when input or room for output ends. |
| LzssDecode.Decompress | libkern/mkext.c:108-174 | For every input: the result is the length of the stream's meaning over an unbounded history, cut at the room for output, the output is its bytes, and nothing beyond is written. |
| Adler32.LateReduction | libkern/mkext.c:50-66 | Reducing modulo 65521 only after a block gives the sums reduced at every byte. |
| Adler32.ClosedForm | libkern/mkext.c:43-68 | The two sums in closed form: one plus all bytes, and the length plus each byte times the number of bytes from it to the end, modulo 65521. |
| Adler32.RawBound | libkern/mkext.c:33-34 | From reduced sums, n bytes keep both sums under their bounds. |
| Adler32.BoundReached | libkern/mkext.c:33-34 | A block of 255s from the largest sums reaches both bounds. |
| Adler32.NmaxIsLargest | libkern/mkext.c:33-34 | 5552 is the largest block length for which the second bound is below 2^32. |
| Adler32.Do1 | libkern/mkext.c:36-36 | One byte, with neither accumulator overflowing 32 bits within a block. |
| Adler32.Do16 | libkern/mkext.c:36-40 | The unrolled loop adds sixteen bytes. |
| Adler32.Checksum | libkern/mkext.c:43-68 | The checksum of every input is that of the byte-at-a-time definition in section 2.2 of RFC 1950. |
| UbsanLog.StepOk | san/ubsan_log.c:65-101 | Every atomic step of every thread and handler keeps the invariant of the log. |
| UbsanLog.SwapLineOk | san/ubsan.c:51-60 | The compare-and-swap on a location's line word claims a location that no thread and no record has. |
| UbsanLog.CheckTailOk | san/ubsan_log.c:77-83 | The full test leaves room for one more entry, or drops the record. |
| UbsanLog.SwapNextOk | san/ubsan_log.c:77-83 | A successful reservation takes a slot no other thread owns and no published record is in. |
| UbsanLog.FillOk | san/ubsan_log.c:85-86 | The owner of a slot may write it at leisure: it is neither published nor another's. |
| UbsanLog.SwapHeadOk | san/ubsan_log.c:88-100 | Only the oldest unpublished reservation can advance head, and its record is whole. |
| UbsanLog.StoreTailOk | san/ubsan_log.c:157-162 | The reset frees slots up to a head that was read before, and keeps the invariant. |
| UbsanLog.RingSafe | san/ubsan_log.c:53-101 | In every state of every run: tail, head and next are in order with at most 2047 slots in use, every slot from tail to head holds the whole record of the writer that reserved it, and no slot has two owners. |
| UbsanLog.HistoryGrows | san/ubsan_log.c:53-101 | Over any stretch of a run the counters and the list of reservations only grow. |
| UbsanLog.NeverTwice | san/ubsan.c:204-212 | In a whole run no source location is appended twice. |
| UbsanLog.InOrder | san/ubsan_log.c:88-100 | Records are published in the order of their reservation. |
| UbsanLog.DumpExact | san/ubsan_log.c:103-135 | A dump that comes to its end has read exactly the whole records from tail to the head it loaded. |
| UbsanLog.DumpComplete | san/ubsan_log.c:103-135 | A dump that comes to its end has read exactly the records that were published and not yet reset when it began. |
| UbsanLog.ResetExact | san/ubsan_log.c:157-162 | A reset takes exactly the records that were published when it began. |
| UbsanLog.PublishExact | san/ubsan_log.c:88-100 | A thread goes on to publish exactly when all older records are published. |
| UbsanLog.DropExact | san/ubsan_log.c:77-82 | Within a lap, a record is dropped exactly when the log is full, or a reset has just moved tail one past the index the thread read. |
| UbsanLog.FullTest | san/ubsan_log.c:78-82 | Made at one moment, the full test is exact. |
| UbsanLog.NotFullAtSwap | san/ubsan_log.c:77-83 | A swap that succeeds within a lap finds the log not full, although the full test was made before it. |
| UbsanLap.LapNeeded | san/ubsan_log.c:72-100 | A run in which a thread that passed its full test a lap ago reserves a slot of a full log; 2048 records are then published and head equals tail, as in an empty log. |
| UbsanLap.DroppedOnEmpty | san/ubsan_log.c:77-82 | A run in which a record is dropped and the log is empty. |
| KasanShadow.Poison | san/kasan.c:153-201 | The shadow after poisoning: redzone, valid, partial and redzone bytes in the range, all others unchanged. |
| KasanShadow.PoisonTruth | san/kasan.c:153-201 | After poisoning with a redzone value exactly the bytes of the object are addressable, and no byte outside the range changes. |
| KasanShadow.RedzoneValues | san/kasan.c:173-184 | The values written into left and right redzones of stack and heap objects. |
| KasanShadow.UnpoisonTruth | san/kasan.c:211-215 | Unpoisoning makes exactly the whole range addressable besides what was. |
| KasanShadow.TestExact | san/kasan.c:626-634 | The test on a shadow byte is exact for the bytes of the range in that granule. |
| KasanShadow.RangePoisoned | san/kasan.c:608-644 | For a nonempty range: true exactly if some byte is not addressable, and the address reported starts the first granule with such a byte. |
| KasanShadow.CheckShadow | san/kasan.c:296-313 | True exactly if every granule that starts in the range is valid or has the given value. |
| KasanHeap.AdmitOk | san/kasan.c:1247-1293 | A free keeps entries equal to the list length within its limit and size equal to the sum within its limit; old contents and the new block are new contents and the block released; what enters goes to the tail. |
| KasanHeap.AdmitExact | san/kasan.c:1247-1293 | Nothing leaves exactly if the block fits both limits; otherwise the block itself if it is too much and larger than the oldest, and else the oldest. |
| KasanHeap.FreeReturns | san/kasan.c:1193-1306 | Which block a free hands back, in every case. |
| KasanHeap.HeldUntilFull | san/kasan.c:1247-1293 | In every run a block in quarantine stays there, poisoned, until a free would pass one of the limits. |
| KasanHeap.FreedIsHeld | san/kasan.c:1219-1293 | In every run a freed block is in quarantine from the free on, for as long as no free passes a limit. |
| KasanHeap.Marks | san/kasan.c:153-201 | The shadow before, after and in every block: 0xfa, 0xfb, and 0xfd or 0xf5 once freed. |
| KasanHeap.Fifo | san/kasan.c:1258-1269 | Over any sequence of frees, the blocks that entered are those that left, in the same order, followed by those still held. |
| KasanHeap.AllocOk | san/kasan.c:1046-1079 | An allocation over unowned granules keeps the invariant of heap and shadow. |
| KasanHeap.FreeOk | san/kasan.c:1193-1306 | A free keeps the invariant, and the block it hands back is fully addressable. |
| KasanHeap.Truth | san/kasan.c:153-215 | In a live block exactly the user's bytes are addressable, and nothing in quarantine is. |
| KasanHeap.RunTruth | san/kasan.c:1193-1306 | After every run of allocations and frees the shadow tells the truth about every address and the quarantines are accounted for. |
| KasanHeap.QuarantineRecord.FreeInternal | san/kasan.c:1193-1306 | Quarantine and shadow afterwards, and the block returned, are those of the free that FreeOk and RunTruth are about. |
| KasanHeader.DecodeEncode | san/kasan.c:883-893 | The bit fields of a header whose fields fit come back from memory. |
| KasanHeader.EncodeDecode | san/kasan.c:883-893 | Every sixteen bytes are the encoding of the header read from them. |
| KasanHeader.HeaderLayout | san/kasan.c:883-893 | How a header lies in memory, byte by byte. |
| KasanHeader.MagicBits | san/kasan.c:903-912 | Each bit of the magic is the parity of the bits of the address's four parts and of the constant. |
| KasanHeader.TraceFits | san/kasan.c:958-984 | The backtrace has as many words as fit, up to fifteen and the number of callers; they are the callers in order, and only the first two may be left out, for want of room. |
| KasanHeader.LaidWord | san/kasan.c:976-980 | The words stored can be read back. |
| KasanHeader.AllocBt | san/kasan.c:958-984 | Exactly the words of that backtrace are written at the start of the redzone, and nothing else changes. |
| KasanHeader.AllocCrc | san/kasan.c:986-1003 | Memory is unchanged, and the sum is that of both redzones with the checksum field read as zero. |
| KasanHeader.CrcIgnoresField | san/kasan.c:986-1003 | The checksum does not depend on the field it is stored in. |
| KasanHeader.HeaderStable | san/kasan.c:914-927 | Whatever is written outside the redzones leaves a header intact. |
| KasanHeader.Alloc | san/kasan.c:1046-1079 | Header, checksum and shadow are intact afterwards, the backtrace that fits is at the start of the right redzone and its length in the header, and nothing outside the redzones changed; address zero changes nothing. |
| KasanHeader.CheckFree | san/kasan.c:1111-1144 | The report is the first of the tests that fails, there is none exactly if everything looked at is sound, and memory is unchanged. |
| KasanHeader.IntactIsSound | san/kasan.c:1111-1144 | For an allocation whose redzones and header are untouched, the check with the original size reports nothing. |
| KasanHeader.OverwriteReported | san/kasan.c:986-1003 | A byte changed in either redzone of an intact block, outside its header, is reported on free, if the checksum tells the contents apart. |
| KasanHeader.MismatchReported | san/kasan.c:1121-1143 | Another magic, another size, a redzone marked as neither valid nor its own, and a user's byte that may not be accessed are each reported. |
| KasanHeader.Dealloc | san/kasan.c:1086-1094 | For an intact allocation the original base and full size come back; the magic is cleared, the other fields of the header stay, and so does all other memory. |
| KasanRun.EntryStable | san/kasan.c:1184-1188 | What is tested on a block that leaves the quarantine does not depend on the link of its entry, which changes while it is held. |
| KasanRun.StepOk | san/kasan.c:1046-1306 | Allocations, frees through the quarantine and user writes to addressable bytes keep the header of every live block and the entry of every block held intact. |
| KasanRun.FreeNeverReports | san/kasan.c:1111-1144 | In every run in which users write only bytes they may access, the check on free reports nothing for any live block with its own size, at any time. |
| KasanRun.QuarantineNeverReports | san/kasan.c:1277-1289 | In every such run a block that leaves a quarantine has the magic, size and checksum it was given when it entered. |
| KasanRun.UseAfterFreeReported | san/kasan.c:1280-1286 | A byte changed in a held block behind its link is found when the block leaves, if the checksum tells the contents apart. |
| KasanRun.FreeMagicReported | san/kasan.c:1280-1283 | So is a change of its magic, which is made of its address and 0xf233. |
| KasanRun.DoubleFreeReported | san/kasan.c:1111-1144 | In every run, freeing anything that has a byte in a block in quarantine is reported. |
| KasanRun.WriteEntry | san/kasan.c:1226-1242 | The entry written into a freed block has the right magic, size and checksum, and nothing outside the block changes. |
| KasanRun.LinkTail | san/kasan.c:1258-1258 | Inserting an entry writes only its own link and the link of one in the list. |
| KasanRun.Dequeue | san/kasan.c:1280-1289 | The tests on a block that leaves report nothing exactly if its entry is intact, and the entry is cleared. |
| KasanRun.FreeInternal | san/kasan.c:1193-1306 | Memory, shadow and quarantine afterwards are those of a step of the runs, the block returned is the one that left, and no test fails. |
| KasanRun.AllocBlock | san/kasan.c:1046-1079 | An allocation is a step of the runs. |
| KasanRun.FreeBlock | osfmk/kern/kalloc.c:1100-1102 | Check, lookup of the allocation and quarantine of a live block with its own size: no test fails, and it is a step of the runs. |
| ShadowPages.SplitExact | san/kasan-x86_64.c:62-82 | Two shadow addresses have the same four indices exactly if they are on one page. |
| ShadowPages.ShadowSlots | san/kasan-x86_64.c:128-130 | The addresses whose top index is one of the two set aside are 0xFFFF_F700_0000_0000 to 0xFFFF_F7FF_FFFF_FFFF. |
| ShadowPages.HardwareAgrees | san/kasan-x86_64.c:70-82 | The processor's walk, nine bits of the address at a time from bits 39, 30, 21 and 12, finds for every shadow address what the tables hold on its path. |
| ShadowPages.NeverExecutable | san/kasan-x86_64.c:159-247 | Whatever that walk finds is mapped as not executable. |
| ShadowPages.TablesDistinct | san/kasan-x86_64.c:196-233 | No two page tables share a page, and none is in the superpage of zeros. |
| ShadowPages.NoSharing | san/kasan-x86_64.c:196-247 | No two virtual pages share a writable page, and none is a page table or in the superpage of zeros. |
| ShadowPages.TablePlace | san/kasan-x86_64.c:196-233 | Every table a walk reaches is the one at that place of the tree. |
| ShadowPages.LinkWalk | san/kasan-x86_64.c:197-230 | A new, empty table changes no translation. |
| ShadowPages.LeafWalk | san/kasan-x86_64.c:235-247 | A new page-table entry changes exactly one translation. |
| ShadowPages.CoverExact | san/kasan-x86_64.c:180-186 | The pages from base to top, computed in 64 bits, hold the shadow of every byte of the range exactly if its rounded end does not wrap and the range is granule-aligned or does not run on into a granule whose shadow starts a page; otherwise its last byte is left out. |
| ShadowPages.StraddlingMissed | san/kasan-x86_64.c:180-186 | A two-byte range across a granule boundary whose second byte has its shadow just past the pages mapped. |
| ShadowPages.TopmostMissed | san/kasan-x86_64.c:180-186 | For the topmost page of the address space the end wraps, and no page is mapped. |
| ShadowPages.SuperWalk | san/kasan-x86_64.c:159-169 | A new directory entry for a superpage changes the translations of exactly that superpage, which were absent. |
| ShadowPages.SuperCoverExact | san/kasan-x86_64.c:122-128 | The superpages mapped hold the shadow of every byte of the range exactly if the range, measured from the boundary of sixteen megabytes at or below it, fits the whole superpages its size is rounded to; otherwise its last byte is left out. |
| ShadowPages.SuperMissed | san/kasan-x86_64.c:122-128 | A range of four megabytes across such a boundary, whose last byte needs a second superpage of shadow. |
| ShadowPages.PageTables.constructor | san/kasan-x86_64.c:305-312 | Once the superpage of zeros is set aside, nothing is mapped and the invariant holds. |
| ShadowPages.PageTables.AllocPageZero | san/kasan-x86_64.c:84-119 | A page never handed out before, cleared, with all translations as before; it fails exactly when the reserve is used up. |
| ShadowPages.PageTables.Descend | san/kasan-x86_64.c:196-233 | The next table on the path, made if need be, with all translations as before. |
| ShadowPages.PageTables.MapPage | san/kasan-x86_64.c:186-251 | A page without a translation gets the page of zeros, read-only, or a fresh cleared writable page; every other translation is as before. |
| ShadowPages.PageTables.MapShadow | san/kasan-x86_64.c:177-252 | Every page from base to top without a translation gets one of the kind asked for and all others are as before; so the processor finds the shadow of every byte if CoverExact's condition holds, and if not, the translation of the last one is as before. |
| ShadowPages.PageTables.MapSuperpageZero | san/kasan-x86_64.c:121-175 | Each superpage of the range, of which nothing was mapped, reads as zeros and all other translations are as before; so the processor finds zeros for the shadow of every byte if SuperCoverExact's condition holds, and if not, the translation of the last one is as before. |
| ShadowPages.PageTables.IsShadowMapped | san/kasan-x86_64.c:321-360 | True exactly if the processor's walk finds the address mapped. |
| Blacklist.CompareOrder | san/kasan_dynamic_blacklist.c:159-182 | On ranges a byte apart the comparison is an order, and a key equals exactly the range that covers it. |
| Blacklist.ApartExact | san/kasan_dynamic_blacklist.c:159-182 | Of ranges the comparison accepts, no address is covered by two exactly if there is a byte between them. |
| Blacklist.LastPartExact | san/kasan_dynamic_blacklist.c:413-420 | The kext name is the part of the bundle identifier after its last dot. |
| Blacklist.AddrToFunc | san/kasan_dynamic_blacklist.c:278-349 | The name, less a leading underscore, of the first of the usable symbols with the greatest value at or before the address; none exactly if there is no such symbol. |
| Blacklist.SameNameExact | san/kasan_dynamic_blacklist.c:430-438 | Names are the same exactly if they agree in each of the characters compared. |
| Blacklist.FiresExact | san/kasan_dynamic_blacklist.c:421-440 | A rule fires exactly if its kind is wanted, the address is in the range or at its end, and neither its kext, up to 64 characters, nor its function, up to 128, is another; an unknown name does not count against it. |
| Blacklist.NoRule | san/kasan_dynamic_blacklist.c:360-363 | The early exit on a kind of access without rules never changes the answer. |
| Blacklist.CachedListed | san/kasan_dynamic_blacklist.c:379-396 | A cached call site that a loaded, marked range justifies is one the search would find. |
| Blacklist.LoadedRange | san/kasan_dynamic_blacklist.c:189-228 | Each executable segment is among the loaded ranges as it was given. |
| Blacklist.LoadedOnly | san/kasan_dynamic_blacklist.c:189-228 | Every new range is one of them. |
| Blacklist.UnloadUndoes | san/kasan_dynamic_blacklist.c:189-273 | Unloading a kext undoes loading it, whatever was looked up in between. |
| Blacklist.MarksIgnored | san/kasan_dynamic_blacklist.c:398-458 | The answer does not depend on the accessed marks. |
| Blacklist.DynamicBlacklist.constructor | san/kasan_dynamic_blacklist.c:576-580 | The mask of blacklisted types is the union of the masks of the rules. |
| Blacklist.DynamicBlacklist.Lookup | san/kasan_dynamic_blacklist.c:94-107 | A cached entry for the address, or there is none in the whole cache. |
| Blacklist.DynamicBlacklist.HashAdd | san/kasan_dynamic_blacklist.c:76-126 | The site is cached unless all 128 entries are in use, and the chains stay right. |
| Blacklist.DynamicBlacklist.LoadKext | san/kasan_dynamic_blacklist.c:189-228 | Each executable segment becomes a range, and every cached site stays justified. |
| Blacklist.DynamicBlacklist.UnloadKext | san/kasan_dynamic_blacklist.c:230-273 | The ranges go, and the cache is emptied if anything in it may rest on them. |
| Blacklist.DynamicBlacklist.Search | san/kasan_dynamic_blacklist.c:398-461 | The slow path answers whether some frame lies in a loaded range for which a rule of the kind applies. |
| Blacklist.DynamicBlacklist.IsBlacklisted | san/kasan_dynamic_blacklist.c:351-462 | In every reachable state the answer is that of the slow search alone on the second to eighth frame of the stack, and only marks and cache change. |
| MacPolicy.HandleExists | security/mac_base.c:740-747 | A free handle exists whenever registration reaches the search for one. |
| MacPolicy.GrownOk | security/mac_base.c:671-695 | Growing a full table keeps the invariant and makes room. |
| MacPolicy.GrownExact | security/mac_base.c:671-695 | The table grows by eight empty entries, exactly if it is full. |
| MacPolicy.LoadResult | security/mac_base.c:662-720 | Which error a registration has: late loading refused, a name in use, or no slot free, in that order. |
| MacPolicy.LoadRefused | security/mac_base.c:662-720 | A refused registration changes nothing but the room in the table. |
| MacPolicy.LoadAdded | security/mac_base.c:715-769 | A success keeps the invariant and adds one policy at the lowest free handle, with the lowest free label slot, and it is static exactly if it came early or can never be unloaded and lies next to the static ones. |
| MacPolicy.UnloadExact | security/mac_base.c:803-853 | Unregistering keeps the invariant exactly if the policy stays, or is not static and the highest handle is not zero. |
| MacPolicy.UnloadRemoves | security/mac_base.c:803-853 | A policy that is taken out leaves its handle and slot free and everything but the counters as it was; one that stays changes nothing. |
| MacPolicy.LoadFixed | security/mac_base.c:662-761 | Static policies stay non-unloadable exactly if the framework is up, or the new policy cannot be unloaded, or its name is in use or it finds no slot. |
| MacPolicy.StaticUnloaded | security/mac_base.c:228-230 | Any early policy that allows unloading becomes static, and taking it out breaks the static prefix. |
| MacPolicy.OnlyPolicyUnloaded | security/mac_base.c:846-848 | With no policy loaded early, any policy that allows unloading gets handle zero and is not static; taking it out wraps the highest index to the largest word. |
| MacPolicy.ExecOk | security/mac_base.c:662-769 | One registration or unregistration keeps the invariant and every static policy at its handle. |
| MacPolicy.RunOk | security/mac_base.c:803-853 | Over every run: numloaded counts the occupied entries, the hint has no hole below it, nothing lies above maxindex, names are distinct, slots are distinct and complementary to the free ones, and a static policy keeps its handle for ever. |
| MacPolicy.Registry.constructor | security/mac_base.c:332-353 | The initial registry satisfies the invariant. |
| MacPolicy.Registry.Duplicate | security/mac_base.c:702-713 | The search up to maxindex finds a loaded policy of the name exactly if there is one. |
| MacPolicy.Registry.FreeHandle | security/mac_base.c:740-747 | The search from the hint finds a free handle. |
| MacPolicy.Registry.Register | security/mac_base.c:662-769 | The new table and the result are those of the registration that LoadResult, LoadRefused and LoadAdded describe, and the invariant holds. |
| MacPolicy.Registry.Unregister | security/mac_base.c:803-853 | The new table is the one UnloadExact is about; a policy that is not registered is left alone, and the answer is busy exactly for a registered one that cannot be unloaded. |
| MacBusy.StageOk | security/mac_base.c:671-769 | The writes of a registration or unregistration in the order of the source, the free of the array before the store of its pointer among them, lead from the old table to the new one, and after each of them the mark is the old or the new one and the count is the old one until its own write, which finds mark and entries as they will be. |
| MacBusy.StepOk | security/mac_base.c:269-327 | Every step of every thread keeps: the count is the number of threads between busy and unbusy, one thread has the lock, the count is zero under an exclusive hold, the table is the one before the change with the writes done so far, its array is freed only between the free and the store of the pointer, a walk that no free has overlapped reads the array in use, and a sleeper sleeps on a raised count or is about to be woken. |
| MacBusy.HolderAlone | security/mac_base.c:269-287 | While a thread holds the list exclusively, no other holds or uses it. |
| MacBusy.Frozen | security/mac_base.c:289-327 | While a thread is counted as busy, no step of any thread changes the list or frees its array. |
| MacBusy.FrozenRun | security/mac_base.c:289-327 | In any run the list is the same at both ends of a stretch in which a thread stays busy. |
| MacBusy.NoDeadlock | security/mac_base.c:269-327 | In every reachable state with a thread that is not idle, one such thread can move: no wakeup is lost. |
| MacBusy.LowerOk | security/mac_base.c:317-327 | The count is positive when it is lowered, as the code asserts. |
| MacBusy.ProbeExact | security/mac_base.c:302-302 | In a table at rest the test of the conditional busy is true exactly if there is a policy beyond the static ones. |
| MacBusy.RaiseExact | security/mac_base.c:306-313 | Under the lock the count is raised exactly if there is a policy beyond the static ones. |
| MacBusy.StaticConsults | security/mac_internal.h:236-245 | The walk over the static policies consults only policies that are in the list at that moment. |
| MacBusy.WalkConsults | security/mac_internal.h:247-255 | So does the walk over the others. |
| MacBusy.CheckExact | security/mac_internal.h:231-259 | In any run, a finished MAC check consulted policies once each and in order of handle, and all that were registered when it began and have not been unloaded since, exactly if every freed array it read still held the policy there, and the mark it loaded is below the number of policies in the table whose count it loaded, or it had none beyond the static ones to consult. |
| MacBusy.CheckComplete | security/mac_internal.h:231-259 | It consulted all of them if no registration that makes room overlapped its walk over the static policies, and its unlocked test overlapped no registration that raises the mark, or fewer of those than there were policies beyond the static ones. |
| MacRace.PolicyMissed | security/mac_internal.h:231-259 | For every list with a hole next to its static policies and one policy above: a run in which a check, overlapped by the one registration that fills the hole, ends without consulting that policy. |
| MacRace.GapReached | security/mac_base.c:740-769 | Registrations and an unregistration that lead from the initial registry to such a list. |
| MacGrow.StaticPolicyMissed | security/mac_base.c:671-695 | For every full table, every policy registered next and every static policy: a run in which a check, overlapped by that registration as it frees the array, ends without consulting the static policy, although its test overlapped nothing. |
| MacGrow.FullReached | security/mac_base.c:671-769 | Registrations that lead from the initial registry to a full table. |
| MacBusy.RunOk | security/mac_base.c:269-327 | Every state of every run satisfies the invariant. |
| KextVersion.ParsedGood | libkern/OSKextVersion.c:188-395 | Every accepted string has its fields within bounds, a known stage, no level for a release and a nonzero one for a candidate. |
| KextVersion.NumberOrder | libkern/OSKextVersion.c:388-392 | The order of the numbers is the lexicographic order of major, minor, revision, stage and level; the numbers are positive and fit 64 bits. |
| KextVersion.StageOrder | libkern/OSKextVersion.c:55-62 | The numbers of the texts with d, a, b, f, fc and no stage, with 1000, 3000, 5000, 7000 and 9000 written out, and so their order: development, alpha, beta, candidate, release. |
| KextVersion.FewerRead | libkern/OSKextVersion.c:253-345 | One or two numbers stand for three with zeros. |
| KextVersion.LevelRefused | libkern/OSKextVersion.c:346-386 | A level above 255 or of more than three digits is refused. |
| KextVersion.StagePrinted | libkern/OSKextVersion.c:458-487 | What the number of each stage prints as. |
| KextVersion.DecimalDigits | libkern/OSKextVersion.c:458-487 | Numbers are printed in decimal digits. |
| KextVersion.FieldsEncode | libkern/OSKextVersion.c:432-452 | Division gives back the fields of a version's number. |
| KextVersion.TextRead | libkern/OSKextVersion.c:458-487 | Parsing a printed version gives it back, without the level of a release, and rejects a candidate of level zero. |
| KextVersion.RoundTrip | libkern/OSKextVersion.c:400-490 | For every accepted string, printing its number and parsing that gives the number back. |
| KextVersion.PrintExact | libkern/OSKextVersion.c:400-490 | Of all integers exactly the numbers of versions survive printing and parsing, and -1. |
| KextVersion.ImageExact | libkern/OSKextVersion.c:188-395 | A number is that of some string exactly if its fields are those of a version. |
| KextVersion.ScanNumber | libkern/OSKextVersion.c:221-251 | The digit loop reads the longest number of at most four digits and tells how it ended. |
| KextVersion.StageLevel | libkern/OSKextVersion.c:346-386 | The level: one to three digits, at most 255, to the end of the text, and not zero for a candidate. |
| KextVersion.ParseVersionString | libkern/OSKextVersion.c:188-395 | The parser computes the number the grammar gives, or -1. |
| KextVersion.GetString | libkern/OSKextVersion.c:400-490 | The buffer holds the text of the number with its closing zero; false exactly for no buffer or one of fewer than twenty bytes, which is then unchanged. |
| Kcdata.LayoutWalk | libkdd/kcdata.h:110-125 | Walking a layout visits exactly its items in order and stops at the end marker, whatever lies beyond. |
| Kcdata.HeaderBytes | libkdd/kcdata.h:110-125 | Type, size and flags of an item, byte by byte. |
| Kcdata.SizeExact | libkdd/kcdata.h:1165-1198 | The size of every item, with the types and old sizes in numbers. |
| Kcdata.ArrayExact | libkdd/kcdata.h:1227-1306 | Which arrays are valid and the size of their elements, with the table of old sizes in numbers. |
| Kcdata.RoundTrip | osfmk/kern/kern_cdata.c:592-628 | Any list of structures, arrays and container markers, written and walked, comes back with its contents, unpadded lengths, counts, element sizes and identifiers; an empty array comes back with its element type and without its element size, and an array of elements without size is invalid. |
| Kcdata.StructSize | libkdd/kcdata.h:1165-1198 | The size read back is the size written exactly if the type records its padding or there is none. |
| Kcdata.ArrayRead | libkdd/kcdata.h:1264-1306 | A written array gives back type, count and element size, and is valid exactly if it is empty or its elements are not. |
| Kcdata.ElementsInside | libkdd/kcdata.h:1264-1306 | The elements of any valid array, old or new, lie within its data. |
| Kcdata.WalkInside | libkdd/kcdata.h:1115-1131 | On arbitrary bytes the walk ends, and the items visited are the bytes passed over, from the start and within the buffer. |
| Kcdata.ValidExact | libkdd/kcdata.h:1115-1122 | At any place in any buffer an iterator tests as valid exactly if its item fits, or its header or its end wraps around the address space. |
| Kcdata.WrapAccepted | libkdd/kcdata.h:1115-1122 | Two places near the top of the address space that are taken for valid and do not fit: one whose data, one whose header wraps. |
| Kcdata.FarFromTop | libkdd/kcdata.h:1115-1122 | In a buffer that ends four gigabytes below the top of the address space, no iterator wraps. |
| Kcdata.FindExact | libkdd/kcdata.h:1333-1347 | The search finds the first visited item of the type, where the items before it end, or there is none. |
| Kcdata.FindType | libkdd/kcdata.h:1336-1347 | The iterator loop computes that search and stays inside the buffer, in every buffer in which no item on the way wraps. |

## Left out

- KasanHeap.QuarantineRecord.FreeInternal: only the shadow and the list, as a sequence; the entries, links and checksums in freed memory are in KasanRun.FreeInternal. The list is not read back from the links.
- MacPolicy.Registry.Register: the copy of a policy's module data and the policy's own callbacks are not modelled.
- MacPolicy.Registry.Unregister: requires that the handle is that of a policy in the table, as the code does by using the entry without a test; a handle handed in twice after the policy is gone is not modelled.
- MacBusy.CheckComplete: the condition is sufficient; the exact one is CheckExact's, on the arrays read and the two words the test loaded.
- MacBusy.CheckExact: a pointer found in freed memory that is not the policy's counts as a policy missed; what following it does is not modelled.
- KasanHeader.CheckFree: requires that the redzones a header with the right magic announces lie in memory, since the code reads them before any other test; a header corrupted so that they do not is not modelled.
- Blacklist.DynamicBlacklist.LoadKext: requires a byte between executable segments. ApartExact shows that without it the search is ambiguous at the shared address, so what a lookup then finds depends on the shape of the red-black tree, which is not modelled.
- Kcdata.FindType: requires that no item on the way wraps around the address space, which is what ValidExact shows the iterator test to rely on.
- Blacklist.DynamicBlacklist.IsBlacklisted: hit counts and the message on a first hit are not modelled.
- ShadowPages.PageTables.MapShadow: after the panic for want of memory nothing is promised.
- ShadowPages.PageTables.MapSuperpageZero: after a panic, for want of memory or because something was mapped, nothing is promised.
- Weak memory ordering: the log and the busy count are interleavings of atomic steps.
- System calls, labels, copyin and copyout in security/mac_base.c, and the list of label namespaces.
- The number of entries that the UBSan sysctl reports.
- KASan reports, boot arguments, memory intrinsics, fake stacks, and the ARM page tables.
- The debug pattern KASan may write into redzones and freed memory.
- Compression and copyout in the kcdata writer, and the table of kcdata types.
