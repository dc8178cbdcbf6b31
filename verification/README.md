# A verified model of the kernel's allocators, memory-map walk and bit-level headers

This project models, in Dafny, the parts of the repository whose correctness rests on pointer
arithmetic, bit patterns and bytes in memory, and proves what those parts are relied on for.

**The aligned allocator** (`include/std/mm_malloc.h`). `_mm_malloc` rounds a pointer up with a bit
mask and hides the original pointer in the word just below the result; `_mm_free` reads it back.
`Alignment.dfy` has the pointer arithmetic at every pointer size, `AlignedAlloc.dfy` an ideal
allocator as a state machine over byte-addressed memory (any interleaving of aligned and plain
requests, releases and client writes), `AllocRuns.dfy` what holds over all its runs, and
`AlignedHeap.dfy` the header's code as a class: with wrapping sums, masks and a word read back from
memory, each method is proved to take an ideal step exactly as long as the request does not wrap.

**The kernel's own `malloc` and `free`** (`libc/stdlib_memory.c`). `HeapChain.dfy` has one heap as a
list of blocks, `HeapMemory.dfy` its control blocks as bytes, `HeapSystem.dfy` several heaps, and
`LibcMalloc.dfy` the code as a class over bytes in memory: first-fit search, splitting, merging on
release, growth by a new heap. Its methods are proved to keep the contract that the ideal allocator
asks of its environment, for every size whose sum with a control block fits in 32 bits; for the
twenty others, and only for them, every answer but null is proved to break it. `KernelHeap.dfy` puts
`_mm_malloc` on top of that code and carries the history of its steps. An operation extends it by a
legal step of the ideal allocator if and only if the 32-bit sums of both functions hold up; for such
operations the theorems about runs hold of the composed code without assuming anything of `malloc`.

**The multiboot memory-map walk** (`kernel.c`). `MapWalk.dfy` treats the loop as 32-bit arithmetic on
size fields; `MemoryMap.dfy` ties it to bytes, to lists of records, and to the move into the higher
half.

**Plain-C headers.** `Avx.dfy` (256-bit lane insert, extract and set at three lane widths),
`Bmi.dfy` (lowest-set-bit functions, at every word width) and `Rotate.dfy` (rotates, at every word
width), over `Bits.dfy` and `ByteMemory.dfy`.

## What the model takes as given

- A `size_t` and a pointer have the same width, 8 bits a byte, little-endian words. The allocator is
  proved for every pointer size; the kernel's is 4 bytes.
- What `malloc` and `free` do outside the blocks that are handed out is arbitrary (`MayReply`, `Keeps`
  in `AlignedAlloc.dfy`). In `KernelHeap.dfy` this is not an assumption but a theorem.
- `vmm_create_heap` is not part of this model: where it maps a heap and what memory holds afterwards
  are parameters, restricted only by not touching existing heaps (`NewRegion`). `errno.h` is not part
  of this model: `EINVAL` is a symbol.
- The compiler's lane and half primitives get their direct meaning as access to a byte string.

## Where the code and its comments disagree

- `include/std/mm_malloc.h:46` assumes that `malloc` returns word-aligned pointers. The `malloc` of
  `libc/stdlib_memory.c` does not round sizes. In a new heap, a request for 1 byte and then one for 4
  answer a pointer that is 1 modulo 4 (`HeapChain.UnalignedAnswer`). While every block of every heap
  lies at an aligned address, answers meet the assumption in full, and one request leaves the blocks so
  if and only if it is for whole words; releases always do (`LibcMalloc.Context.Malloc` and `Free`). So
  whole-word requests only ever get aligned pointers. With an unaligned pointer the hidden
  word can start below the block (`Alignment.UnsuitableWordOverlaps`). The kernel is saved by layout:
  a control block is 20 bytes of which the last three are padding (`BOOL` is one byte,
  `include/types.h:79`), and the word reaches at most three bytes below the block. The model has these
  bytes as the `slack` of a target; all results are proved for any slack that suits the pointers.
- `include/multiboot.h:112-113` says that offset 0 of a record is `base_addr_low`; the structure that
  follows puts `size` there, and the loop reads it there. The model follows the structure.
- `libc/stdlib_memory.c:165` adds a control block to the size in 32 bits. For the twenty largest sizes
  the sum wraps and the test lets small blocks pass. `LibcMalloc.Context.Malloc` is proved for these
  sizes too: it answers null exactly when no free block has as many bytes as the wrapped sum and no
  heap can be added, and every other answer claims bytes beyond the last address. For 0xFFFFFFEC the
  next search that comes to the block never leaves it (`HeapSystem.OversizedStuck`);
  `_mm_malloc (0xFFFFFFDC, 16)` asks for that size without wrapping itself (`KernelHeap.LibcSumTooLarge`).
- `libc/stdlib_memory.c:166-168` takes over a block of exactly the size asked for. No block that passes
  line 165 has that size, whether its sum wraps or not (`HeapChain.PassesMeansFitsIff`), so the branch is
  dead and is not in the model.
- The loop in `kernel.c:165-182` need not end on arbitrary memory: a size field of -4 holds it in place
  (`MapWalk.WrapCanLoop`). `MapWalk.AdvancesIff` says exactly which size fields move it forward, and
  `MapWalk.EndsIff` exactly which walks end.

## Model

The text of `libc/stdlib_memory.c` is not valid UTF-8. Rows about it cite in the second column the call of
`malloc` or `free` that its code serves, with what the caller assumes of it, and give the lines modelled
in front of the statement.

| member | source | states |
|---|---|---|
| Alignment.PowerTestIff | include/std/mm_malloc.h:37 | the refusal test passes exactly 0 and the powers of two, at every pointer size |
| Alignment.RaisedPower | include/std/mm_malloc.h:50-51 | after the raise every accepted alignment is a power of two, at least two pointers, below the address space, and a multiple of the nonzero alignment asked for |
| Alignment.RaisedIsLeast | include/std/mm_malloc.h:50-51 | no lower power of two holds two pointers and is a multiple of the alignment asked for |
| Alignment.AboveIsLeast | include/std/mm_malloc.h:57-59 | the target of the rounding is the least multiple of the alignment strictly above the pointer, and at most one alignment above it |
| Alignment.MaskedUpIs | include/std/mm_malloc.h:58-59 | for every pointer, wrapped sums included, the mask expression rounds the wrapped sum down to a multiple of the alignment |
| Alignment.MaskedUpIsAbove | include/std/mm_malloc.h:58-59 | when the sum does not wrap, the mask expression gives the least multiple strictly above the pointer |
| Alignment.WordFitsIff | include/std/mm_malloc.h:46-62 | the exact condition on the pointer's residue under which the hidden word stays off what lies below the block and its slack |
| Alignment.SuitableWordFits | include/std/mm_malloc.h:46-57 | a word-aligned pointer, or one with slack below it, always leaves room for the hidden word |
| Alignment.UnsuitableWordOverlaps | include/std/mm_malloc.h:46-62 | without alignment and slack there are pointers for which the hidden word starts below the block |
| Alignment.PointerFacts | include/std/mm_malloc.h:37-62 | for every accepted alignment the returned pointer is the least raised multiple above, a multiple of the alignment asked for, with the word's room below it |
| Alignment.PayloadFitsIff | include/std/mm_malloc.h:53-59 | a block of the bytes asked for holds the payload if and only if `size + align` did not wrap |
| AlignedAlloc.MmMallocKeepsInv | include/std/mm_malloc.h:30-65 | an accepted request that `malloc` answers keeps every hidden word, block bound and one-owner relation of the older grants and establishes them for the new one |
| AlignedAlloc.WriteMissesWord | include/std/mm_malloc.h:61-62 | no legal client write reaches the hidden word of any live grant |
| AlignedAlloc.StepKeepsInv | include/std/mm_malloc.h:30-72 | every legal step, of any kind, keeps the invariant: hidden words intact, words and payloads inside their own blocks, blocks disjoint, one grant a block |
| AlignedAlloc.RunKeepsInv | include/std/mm_malloc.h:30-72 | the invariant holds in every state of every run |
| AllocRuns.AcceptedPointer | include/std/mm_malloc.h:53-64 | a successful request returns the least suitable multiple above `malloc`'s pointer with at least `size` bytes before the block's end |
| AllocRuns.AcceptedIsNew | include/std/mm_malloc.h:53-64 | the pointer returned is never one that is still live |
| AllocRuns.RefusedChangesNothing | include/std/mm_malloc.h:37-55 | null is returned exactly for a bad alignment, size 0 or a failed `malloc`; then no block, grant or byte of a block changes, and without a call of `malloc` no byte at all; `errno` is set exactly for a bad alignment |
| AllocRuns.MallocThenFree | include/std/mm_malloc.h:53-72 | a request and the release of its result restore `malloc`'s blocks and the grants exactly |
| AllocRuns.FootprintsDisjoint | include/std/mm_malloc.h:53-62 | in every state no byte is in two grants (word and payload), nor in a grant and another user's block |
| AllocRuns.FreeGetsOwnBlock | include/std/mm_malloc.h:67-72 | after any run the word read by a release of a live pointer is that pointer's own live block and backs no other pointer |
| AllocRuns.Provenance | include/std/mm_malloc.h:30-72 | after any run each live pointer, with its size, alignment and origin, comes from a request of that run not released since, or was live before |
| AllocRuns.StepBalances | include/std/mm_malloc.h:53-72 | one step: live blocks before plus the block obtained equal live blocks after plus the block freed, where what is freed is the word read from memory |
| AllocRuns.Ledger | include/std/mm_malloc.h:53-72 | the same over whole runs, as multisets: no block is lost, and none is freed twice |
| AllocRuns.FreeingAllRestores | include/std/mm_malloc.h:53-72 | if in the end no aligned pointer is live, `malloc`'s live blocks are those of the other users at the start, with their sizes |
| AllocRuns.OneToOne | include/std/mm_malloc.h:53-62 | in every state the pointer hidden below a live aligned pointer is a bijection from the live aligned pointers onto the blocks that are not other users' |
| AllocRuns.StepKeepsPayload | include/std/mm_malloc.h:53-72 | a step that neither frees the grant nor writes the byte keeps every byte of a live payload |
| AllocRuns.DataSurvives | include/std/mm_malloc.h:53-72 | a byte of a live payload keeps its value through any run that neither frees the pointer nor writes the byte |
| AllocRuns.WrittenIsRead | include/std/mm_malloc.h:53-72 | a byte written into a live payload is read back after any run that neither frees the pointer nor writes the byte again, and the write changes no other byte |
| AllocRuns.ErrnoOverRuns | include/std/mm_malloc.h:37-41 | over any run `errno` becomes `EINVAL` exactly if some request has a bad alignment, and changes for nothing else |
| AlignedHeap.Heap.MmMalloc | include/std/mm_malloc.h:30-65 | for any sizes the method's state and result are the C outcome with its wrapping sums; unless the request wraps, it is the ideal step with the ideal result |
| AlignedHeap.Heap.MmFree | include/std/mm_malloc.h:67-72 | releasing reads the hidden word, hands that block to `free` and is the ideal step |
| AlignedHeap.OutcomeIsIdeal | include/std/mm_malloc.h:30-65 | masks and wrapping sums agree with the ideal allocator for every request that does not wrap, and keep the invariant |
| AlignedHeap.OutcomeAccepted | include/std/mm_malloc.h:50-64 | an answered request whether or not its sums wrap: the result is the wrapped sum rounded down, the word below it reads back as `malloc`'s pointer, and `malloc` was asked for the wrapped sum |
| AlignedHeap.WordsAgree | include/std/mm_malloc.h:53-62 | the three C expressions (size asked, rounded pointer, address of the word) agree with plain arithmetic |
| HeapChain.PassesMeansFitsIff | include/std/mm_malloc.h:46-53 | (`libc/stdlib_memory.c:165-168`) for every size, a block that passes the test of line 165 with its 32-bit sum has room for the bytes if and only if the sum does not wrap, and is never of exactly that size |
| HeapChain.NoRoomIff | include/std/mm_malloc.h:46-53 | (`libc/stdlib_memory.c:152-189`) for sizes whose sum does not wrap, there is no room in a heap exactly when no block passes the test |
| HeapChain.FirstIsCut | include/std/mm_malloc.h:46-53 | (`libc/stdlib_memory.c:152-189`) for such sizes the block that is cut is the first that passes the test |
| HeapChain.PassAtFirst | include/std/mm_malloc.h:46-53 | (`libc/stdlib_memory.c:152-189`) for every size the answer lies behind all blocks that fail the test and the control block of the first that passes |
| HeapChain.AllocSpan | include/std/mm_malloc.h:46-53 | (`libc/stdlib_memory.c:165-181`) splitting a block leaves the bytes of the heap accounted for exactly |
| HeapChain.AllocLive | include/std/mm_malloc.h:46-53 | (`libc/stdlib_memory.c:165-185`) an allocation makes exactly the returned block live and leaves all others live as they were |
| HeapChain.AllocFresh | include/std/mm_malloc.h:46-53 | (`libc/stdlib_memory.c:165-185`) the pointer obtained was not live before |
| HeapChain.ReleaseHere | include/std/mm_malloc.h:71 | (`libc/stdlib_memory.c:207-229`) releasing a block followed by a run of free blocks gives one free block over all of them and changes nothing else |
| HeapChain.ReleaseSpan | include/std/mm_malloc.h:71 | (`libc/stdlib_memory.c:207-229`) merging leaves the bytes of the heap accounted for exactly |
| HeapChain.ReleaseLive | include/std/mm_malloc.h:71 | (`libc/stdlib_memory.c:207-229`) a release removes exactly the block released from those in use |
| HeapChain.LiveApart | include/std/mm_malloc.h:46-53 | (`libc/stdlib_memory.c:143-196`) two live blocks never overlap and have a control block between them |
| HeapChain.AllocThenRelease | include/std/mm_malloc.h:53-72 | (`libc/stdlib_memory.c:143-234`) releasing what was just obtained restores the very same blocks if and only if no free block follows the one that was cut |
| HeapChain.AllocKeepsAlignmentIff | include/std/mm_malloc.h:46-53 | (`libc/stdlib_memory.c:165-184`) a request leaves all blocks of a heap at aligned addresses, free ones included, if and only if it is for a multiple of 4 bytes |
| HeapChain.ReleaseKeepsAlignment | include/std/mm_malloc.h:71 | (`libc/stdlib_memory.c:207-229`) a release keeps all pointers word-aligned |
| HeapChain.AllocAligned | include/std/mm_malloc.h:46-53 | (`libc/stdlib_memory.c:183`) in a heap whose blocks all lie at aligned addresses the pointer obtained is aligned |
| HeapChain.SecondAnswer | include/std/mm_malloc.h:46-53 | (`libc/stdlib_memory.c:165-184`) in a new heap the first answer is 20 bytes in and the second 40 and the first size further, so the second is out of line by as much as the first size is |
| HeapChain.UnalignedAnswer | include/std/mm_malloc.h:46-53 | (`libc/stdlib_memory.c:165-184`) the assumption of line 46 fails: requests for 1 byte and for 4 answer a pointer that is 1 modulo 4 |
| HeapMemory.HeaderReads | include/std/mm_malloc.h:53-72 | (`libc/stdlib_memory.c:30-37`) the four words and the flag read from a control block's bytes are the block it describes |
| HeapMemory.HeaderLayout | include/std/mm_malloc.h:53-72 | (`libc/stdlib_memory.c:26-37`) the 17 bytes of a control block, one by one: heap, the magic number, size, padding, flag |
| HeapMemory.NewHeaderIs | include/std/mm_malloc.h:46-53 | (`libc/stdlib_memory.c:172-176`) the five assignments in source order leave a complete free control block |
| HeapMemory.SplitUsed | include/std/mm_malloc.h:46-53 | (`libc/stdlib_memory.c:171-180`) the writes of a split leave both control blocks right and touch nothing outside the block |
| HeapMemory.WrappedUsed | include/std/mm_malloc.h:46-53 | (`libc/stdlib_memory.c:171-180`) for sizes whose sum wraps the same writes stay in the block, whatever the new control block has been given for a size, and leave a size field that says more than the block has |
| HeapMemory.CarveLaid | include/std/mm_malloc.h:46-53 | (`libc/stdlib_memory.c:165-181`) after a split the heap's bytes are laid out as the list with its two halves |
| HeapMemory.ReleaseLaid | include/std/mm_malloc.h:71 | (`libc/stdlib_memory.c:227-229`) after a merge the heap's bytes are laid out as the list with one free block |
| HeapMemory.PayloadWriteLaid | include/std/mm_malloc.h:53-72 | (`libc/stdlib_memory.c:30-37`) writes above the fields of a control block, padding included, leave the heap laid out |
| HeapSystem.SoundBlocks | include/std/mm_malloc.h:46-53 | (`libc/stdlib_memory.c:282-330`) the live blocks of all heaps, with three bytes of slack each, are disjoint and inside the address space |
| HeapSystem.AddSound | include/std/mm_malloc.h:46-53 | (`libc/stdlib_memory.c:143-196`) an allocation in one heap keeps all heaps in order and adds exactly one live block |
| HeapSystem.RemoveSound | include/std/mm_malloc.h:71 | (`libc/stdlib_memory.c:198-234`) a release in one heap keeps all heaps in order and removes exactly one live block |
| HeapSystem.TouchKeeps | include/std/mm_malloc.h:53-72 | (`libc/stdlib_memory.c:165-229`) the writes of an allocation or release disturb no other live block, nor its slack |
| HeapSystem.CreateSound | include/std/mm_malloc.h:46-53 | (`libc/stdlib_memory.c:80-115`) a new heap, one free block filling it, keeps all heaps in order |
| HeapSystem.FirstRequest | include/std/mm_malloc.h:46-53 | (`libc/stdlib_memory.c:28-115`) the first request is answered with null exactly if it is empty, no heap is mapped, or it is above 8388568 bytes and its sum does not wrap |
| HeapSystem.FifteenHeaps | include/std/mm_malloc.h:46-53 | (`libc/stdlib_memory.c:318`) `malloc` adds a heap to at most 14 others, and does add it when the search of all of them fails |
| HeapSystem.OversizedIsNoReply | include/std/mm_malloc.h:46-53 | (`libc/stdlib_memory.c:165-184`) an answer to a size whose sum wraps claims bytes beyond the last address, so it breaks the contract of `malloc` |
| HeapSystem.OversizedStuck | include/std/mm_malloc.h:46-53 | (`libc/stdlib_memory.c:152-189`) after such an answer to a request for 0xFFFFFFEC bytes, a later search that comes to the block is there after any number of turns |
| HeapSystem.AlignedReplyIff | include/std/mm_malloc.h:46-53 | an answer of libc's `malloc` is one that the `malloc` assumed by line 46 could give, without any slack, if and only if it is word-aligned |
| HeapSystem.AnswerAlignedIff | include/std/mm_malloc.h:46-53 | (`libc/stdlib_memory.c:282-330`) while all blocks of all heaps are aligned every answer is one that the `malloc` assumed by line 46 could give, and they stay so if and only if the answer is null or the request for whole words |
| HeapSystem.ClientWriteSound | include/std/mm_malloc.h:53-72 | (`libc/stdlib_memory.c:30-37`) writes into a live block or its slack leave every control block of every heap in place |
| LibcMalloc.Context.Search | include/std/mm_malloc.h:46-53 | (`libc/stdlib_memory.c:152-189`) for every size, the loop stops at the first block that passes the test, or finds that none does; no corruption is ever seen |
| LibcMalloc.Context.SetNext | include/std/mm_malloc.h:46-53 | (`libc/stdlib_memory.c:171-176`) the five assignments to the new control block, each read taken when the source takes it, leave it complete; the values read are the old ones if the two control blocks are apart |
| LibcMalloc.Context.WriteSplit | include/std/mm_malloc.h:46-53 | (`libc/stdlib_memory.c:170-181`) the writes of a split, in source order and with 32-bit sums: two right control blocks if the sum of line 165 does not wrap, an overstated size field if it does |
| LibcMalloc.Context.Split | include/std/mm_malloc.h:46-53 | (`libc/stdlib_memory.c:170-184`) after a split all heaps are in order and one live block is added, unless that sum wraps; the bytes of the others are kept in any case |
| LibcMalloc.Context.AllocateFrom | include/std/mm_malloc.h:46-53 | (`libc/stdlib_memory.c:143-196`) for every size: null and no change at all exactly when no block passes the test; else the heap becomes the list with the first such block cut, unless the sum wraps; other live bytes are kept |
| LibcMalloc.Context.CreateHeap | include/std/mm_malloc.h:46-53 | (`libc/stdlib_memory.c:80-115`) a heap of 8 MB is added, as a single free block, exactly when there are fewer than 16 and one was mapped |
| LibcMalloc.Context.FromHeaps | include/std/mm_malloc.h:46-53 | (`libc/stdlib_memory.c:303-313`) the loop over the heaps: null exactly when every search fails, else, for every size, the first passing block of the first heap whose search succeeds serves the request |
| LibcMalloc.Context.Malloc | include/std/mm_malloc.h:46-53 | (`libc/stdlib_memory.c:282-330`) for every size: exactly when an 8 MB heap is added, never to 15, when the answer is null, and which block of which heap serves the request; unless the sum of line 165 wraps, that block is split and the contract of `malloc` is kept; if it wraps, an answer breaks the contract; while all blocks are aligned, the answer meets the assumption of line 46 in full, and exactly whole-word requests keep them so |
| LibcMalloc.Context.FreeAfter | include/std/mm_malloc.h:71 | (`libc/stdlib_memory.c:207-225`) the loop adds up exactly the maximal run of free blocks that follows |
| LibcMalloc.Context.Merge | include/std/mm_malloc.h:71 | (`libc/stdlib_memory.c:227-229`) after the merging writes all heaps are in order and exactly one live block is gone |
| LibcMalloc.Context.FreeBlock | include/std/mm_malloc.h:71 | (`libc/stdlib_memory.c:198-234`) the heap becomes the list with the block released and merged; other live bytes are kept |
| HeapSystem.MallocDoneIsReply | include/std/mm_malloc.h:46-53 | (`libc/stdlib_memory.c:282-330`) the answer of `malloc`, the heaps and their blocks afterwards are one function of the heaps before, the size and what is mapped |
| HeapSystem.ReplyServed | include/std/mm_malloc.h:46-53 | (`libc/stdlib_memory.c:303-324`) that function splits the first fitting block of the first heap that has one, an added heap coming last |
| LibcMalloc.Context.Free | include/std/mm_malloc.h:71 | (`libc/stdlib_memory.c:332-351`) a live pointer passes the validation, is found in the heap that holds it, and is released there, exactly it ceasing to be live; a pointer that fails the validation changes nothing; aligned blocks stay aligned |
| HeapSystem.NotAllocatedIff | include/std/mm_malloc.h:71 | (`libc/stdlib_memory.c:338`) the validation in numbers: heap below 16, the magic number, a size other than 0 |
| LibcMalloc.Context.StoreWord | include/std/mm_malloc.h:62 | a word stored in a live block or its slack leaves all heaps in order |
| KernelHeap.Kernel.HidePointer | include/std/mm_malloc.h:57-64 | the two C expressions for the rounded pointer and the word; when the word lies in the block or its slack, libc's heaps stay in order |
| KernelHeap.Kernel.Obtain | include/std/mm_malloc.h:53 | what libc's `malloc` makes of every heap, which block of which heap it answers, and when that keeps the contract of `malloc` |
| KernelHeap.Kernel.Ask | include/std/mm_malloc.h:53 | for every accepted request, which block of which heap libc answers and when it answers null; its answer completes a legal step but for the word to hide, or one of the 32-bit sums did not hold up and no step with that answer is legal |
| KernelHeap.Kernel.MmMalloc | include/std/mm_malloc.h:30-65 | over the kernel's own `malloc`, for every size and alignment: for an accepted request, which block of which heap serves it, when the answer is null, and what the code then returns and stores; a refused one changes no heap; the operation adds a legal step to the history and returns what the ideal allocator returns if it is refused or the sums of both functions hold up; otherwise the step is not legal |
| KernelHeap.LibcSumTooLarge | include/std/mm_malloc.h:53 | an accepted request, not wrapping itself, for which libc's sum is too much |
| KernelHeap.Kernel.MmFree | include/std/mm_malloc.h:67-72 | over the kernel's own `free`: the word read back is the block behind the pointer, which is released in its heap and takes in the free blocks behind it; the operation adds a legal step; null changes nothing |
| KernelHeap.Kernel.PlainMalloc | include/std/mm_malloc.h:46-53 | (`libc/stdlib_memory.c:282-330`) a direct call of `malloc` by other code: which block of which heap serves it and when it is answered with null; it is a legal step if the answer is null or libc's sum does not wrap, and is not otherwise |
| KernelHeap.Kernel.PlainWrite | include/std/mm_malloc.h:53-62 | a write by other code into a block that it obtained is a legal step, and leaves libc's control blocks in place |
| KernelHeap.Kernel.PlainFree | include/std/mm_malloc.h:71 | (`libc/stdlib_memory.c:332-351`) a direct release of a block that backs no aligned pointer is a legal step; the block is released in its heap and takes in the free blocks behind it |
| KernelHeap.Kernel.ClientWrite | include/std/mm_malloc.h:64 | a client's write into its payload is a legal step, and leaves libc's control blocks in place |
| KernelHeap.RunExtends | include/std/mm_malloc.h:30-72 | a run followed by a legal step is a run that ends where the step leads |
| KernelHeap.HiddenIsLive | include/std/mm_malloc.h:71 | after any history, the word below a live aligned pointer is a pointer live in libc's heaps |
| MapWalk.AdvancesIff | kernel.c:181 | at every cursor, a pass moves it forward exactly when size field plus 4, as a 32-bit sum, is neither 0 nor carries it beyond the last address |
| MapWalk.DistanceFalls | kernel.c:165-182 | without wrap the cursor gains at least 4 a pass |
| MapWalk.WalkTerminates | kernel.c:165-182 | without wrap, on any memory, the loop ends within ceil(distance / 4) passes |
| MapWalk.ForwardTerminates | kernel.c:165-182 | whenever every pass moves forward, wrapping or not, the loop ends within as many passes as there are bytes |
| MapWalk.EndsIff | kernel.c:165-182 | on any memory, the loop ends if and only if the cursor is never twice at one place below the end |
| MapWalk.WrapCanLoop | kernel.c:165-182 | a size field of -4 keeps the loop running for ever |
| MapWalk.CursorOnChain | kernel.c:165-182 | on records laid end to end the cursor visits the record starts in order, once each, and leaves exactly at the end |
| MapWalk.ExactExitIffChain | kernel.c:165-182 | the loop leaves exactly at the end, without wrap, if and only if it walked a chain of records |
| MapWalk.SimulationIff | kernel.c:119-125 | on any two memories, two walks an offset apart are in step through any number of passes if and only if each pass reads the same size in both and no size carries the cursor within the offset of the top of the address space |
| MemoryMap.MultibootInfo.CorrectMbtInfo | kernel.c:119-125 | for every mapping of the low 4 MB, any run of bytes of the map reads the same at the new address as physically at the old; the address is moved up by 0xC0000000 without wrapping exactly when it is below 1 GB |
| MemoryMap.MultibootInfo.KernelMain | kernel.c:154-182 | for every map on which the loop ends, it makes exactly the passes of the specified walk, at exactly its cursors; without wrap their number is bounded by the map's length |
| MemoryMap.MapIsChain | include/multiboot.h:114-122 | a list of records encoded in memory is a chain for the walk |
| MemoryMap.ChainIsMap | include/multiboot.h:114-122 | and every chain is such a list: the records can be read back |
| MemoryMap.WalkVisitsRecords | kernel.c:164-182 | for every list of records that fills the map, the walk makes one pass a record, in order, finds that record there, and exits exactly at the end |
| MemoryMap.ExactExitIffMap | kernel.c:164-182 | the walk exits exactly at the end without wrap if and only if the bytes are a list of records |
| MemoryMap.MapUnique | include/multiboot.h:114-122 | the bytes of a map decode to one list of records only |
| MemoryMap.HigherHalfSimulation | kernel.c:119-125 | for any contents of memory, the rebased walk is the physical walk moved, pass by pass, if and only if no size field carries the cursor to 1 GB or beyond, and none that lies across the edge of the mapped 4 MB reads differently |
| MemoryMap.InsideEdge | kernel.c:119-125 | for maps that end three bytes below that edge the first condition alone is exact |
| MemoryMap.RecordsInStep | kernel.c:119-182 | for a map of records in the low 4 MB the two walks are in step at every pass |
| MemoryMap.OvershootDiverges | kernel.c:119-182 | a concrete size field for which the two walks part: one has ended, the other wraps to low memory |
| MemoryMap.WalkLowMap | kernel.c:154-182 | handed a map of records in low memory, the kernel visits every record in order through the higher half |
| Avx.InsertIsPut | include/std/avxintrin.h:745-767 | the two-level insert is one update of the 32-byte vector |
| Avx.ExtractIsGet | include/std/avxintrin.h:498-517 | the two-level extract is one access to the flat array of lanes, sign-extended at 32 bits only |
| Avx.InsertUpdatesLane | include/std/avxintrin.h:745-767 | insert updates one lane of the flat array, reduced to the lane, and no other |
| Avx.LanesDetermine | include/std/avxintrin.h:498-517 | vectors with the same lanes at any one width are equal |
| Avx.GetAfterPut | include/std/avxintrin.h:498-767 | reading after inserting gives the reduced value at that lane and the old one elsewhere |
| Avx.PutAfterPut | include/std/avxintrin.h:745-767 | a later insert at a lane overwrites an earlier one |
| Avx.PutsCommute | include/std/avxintrin.h:745-767 | inserts at different lanes commute |
| Avx.PutAfterGet | include/std/avxintrin.h:498-767 | re-inserting an extracted value is the identity |
| Avx.Int32RoundTrip | include/std/avxintrin.h:498-751 | a 32-bit lane returns every `int` unchanged |
| Avx.Int16RoundTrip | include/std/avxintrin.h:505-759 | any `int` inserted in a 16-bit lane comes back modulo 65536, zero-extended |
| Avx.Int8RoundTrip | include/std/avxintrin.h:512-767 | any `int` inserted in an 8-bit lane comes back modulo 256, zero-extended |
| Avx.ExtractBytes | include/std/avxintrin.h:498-517 | which bytes of the vector each extract reads, least significant first, the 32-bit one as a signed number |
| Avx.RunRefinesFlat | include/std/avxintrin.h:745-767 | any sequence of inserts refines the same updates of a flat array |
| Avx.SetrLane | include/std/avxintrin.h:1226-1370 | lane i of a `setr` vector is argument i, through the reversed `set` form |
| Avx.SetLane | include/std/avxintrin.h:1226-1263 | lane i of a `set` vector is the argument i places from the last |
| Avx.AnyOrderBuildsSetr | include/std/avxintrin.h:745-1370 | writing every lane, in any order, with repeats, from any vector, gives the `setr` vector |
| Avx.NarrowLaneOfInsert | include/std/avxintrin.h:745-767 | every narrow lane after a wide insert: a little-endian piece of the value, or unchanged |
| Avx.WidthsAgree | include/std/avxintrin.h:745-767 | writing the pieces of a value at the narrow lanes, in any order, equals one wide insert, for all three pairs of widths |
| Avx.Epi32FromParts | include/std/avxintrin.h:745-767 | four 8-bit inserts at 4N..4N+3, or two 16-bit inserts at 2N and 2N+1, equal one 32-bit insert at N |
| Bmi.TzcntIsLowest | include/std/bmiintrin.h:97-101 | the count of trailing zeros is the least position of a one |
| Bmi.AndnBit | include/std/bmiintrin.h:43-47 | for all words, a bit of `andn(x, y)` is one exactly where y has a one and x has none |
| Bmi.LowestBitLaws | include/std/bmiintrin.h:61-89 | `blsi`, `blsmsk` and `blsr` in terms of the lowest one, for every word and at zero |
| Bmi.BlsiBlsrSplit | include/std/bmiintrin.h:43-89 | `blsr(x)` is `andn(blsi(x), x)`, and the two split x into disjoint bits |
| Bmi.OnesView | include/std/bmiintrin.h:61-89 | the three functions as operations on the set of one bits |
| Bmi.PowerOfTwoTest | include/std/bmiintrin.h:85-89 | `blsr(x)` is 0 exactly for 0 and the powers of two |
| Bmi.RoundsToZero | include/std/bmiintrin.h:85-89 | iterating `blsr` is at 0 after n rounds if and only if n is at least the number of one bits |
| Bmi.DrainedIsExpansion | include/std/bmiintrin.h:61-89 | the `blsi` values read on the way are strictly increasing powers of two, as many as one bits, that sum to x |
| Bmi.ExpansionUnique | include/std/bmiintrin.h:61-89 | no other increasing list of powers of two has that sum |
| Rotate.RolMovesBits | include/std/ia32intrin.h:133-139 | a left rotate moves bit i to bit (i + c) mod width |
| Rotate.RorSource | include/std/ia32intrin.h:157-163 | where each bit of a right rotate comes from |
| Rotate.RolIsRor | include/std/ia32intrin.h:133-163 | rotating left by c is rotating right by width - c |
| Rotate.RorUndoesRol | include/std/ia32intrin.h:225-239 | each rotate undoes the other |
| Rotate.RolCompose | include/std/ia32intrin.h:225-231 | two rotates are one by the sum of the counts modulo the width, the identity when they add to it |
| Rotate.RolEachIsTotal | include/std/ia32intrin.h:133-139 | any sequence of rotates is one rotate by the total count |
| Bits.MaskRoundsDown | include/std/mm_malloc.h:58-59 | masking with the complement of 2^k - 1 rounds down to a multiple of 2^k |
| ByteMemory.LoadStored | include/std/mm_malloc.h:62-71 | a word read back is the word stored, reduced to its bytes |
| ByteMemory.LoadFour | kernel.c:181 | a four-byte word in memory, byte by byte, the least significant first |
| ByteMemory.LoadPoked | include/std/mm_malloc.h:62-64 | a byte written is the byte read back, and no other byte changes |

## Left out

- AlignedAlloc.StepKeepsInv: requests whose `size + align` wraps are not legal steps, because the block is then too small for the payload (`Alignment.PayloadFitsIff`); `AlignedHeap.Heap.MmMalloc` still says what the code then returns and stores.
- MemoryMap.MultibootInfo.KernelMain: asks that the loop ends, which `MapWalk.EndsIff` decides; a walk that does not end has no result to state.
- LibcMalloc.Context.Malloc: after an answer to a size whose sum wraps, the heaps are out of order; what later calls then do is stated for one size only (`HeapSystem.OversizedStuck`).
- LibcMalloc.Context.Free: pointers that are not live but above bytes that pass for a control block are not modelled: what is released then depends on whoever wrote those bytes.
- KernelHeap.Kernel.MmMalloc: after a step that is not legal the history ends; nothing is said of later operations.
- Rotate.RolMovesBits: counts must lie strictly between 0 and the width, as C leaves the shifts undefined otherwise; likewise the other rotates.
- Bmi.TzcntIsLowest: zero is excluded, since `__builtin_ctz` is undefined there.
- `realloc`, `calloc`, `mm_fini` and the empty `mm_free_heap` of `libc/stdlib_memory.c`.
- The mutexes and the lazy `mm_init` of `libc/stdlib_memory.c`: the model has one caller at a time and starts initialised, with no heap.
- The messages printed on corruption: their branches are shown unreachable instead.
- The 64-bit lane functions of `include/std/avxintrin.h`, compiled on x86_64 only, and its floating-point, store and mask functions.
- The wrappers over compiler builtins in the other intrinsic headers: their meaning lives in the compiler and the processor.
- `_bextr_u32`, the 16-bit forms and the aliases of `include/std/bmiintrin.h`: they would only add easy members.
- Boot sequencing, drivers and console in `kernel.c`, and the commented-out body of the memory-map loop.
