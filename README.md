# my_heap in Dafny

A model of `my_heap.c`, a first-fit allocator over a fixed 4096-byte arena.
Every chunk of the arena starts with a header (`struct chunk`). The header
holds the payload size, a free flag and a `next_free` link. Free chunks are
threaded, in ascending address order, through an intrusive singly-linked free
list that starts at `free_list_head`. The `avail` counter holds the number of
bytes in free chunks, headers included.

The model has two modules.

- `Layout` (layout.dfy) describes the arena as a value: a sequence of
  `Block(addr, size, free)` in address order.
  - It defines what `heap_init`, `heap_alloc` and `heap_free` do to that
    sequence (`Initial`, `Alloc`, `Free`), and the views the allocator
    depends on: `FreeList` (the free chunks in order), `Allocated` and
    `Avail`.
  - Its lemmas prove the allocator's invariants. The chunks tile the arena
    exactly. No two free chunks are adjacent. Every payload size is a
    multiple of the word size.
  - They also prove the allocation and release rules, the accounting of
    `avail`, and that freeing every allocation restores the initial state.
- `MyHeap` (my_heap.dfy) is the allocator as the C code runs it.
  - The class `Heap` holds the headers written into the arena, as a map
    from offset to `Chunk`, plus `avail` and `freeListHead`. Its methods
    update these in place, with the same loops and pointer updates as the
    C functions.
  - The ghost field `blocks` is the layout the headers describe. `Valid()`
    requires several things to hold together:
    - the layout keeps its invariant;
    - `avail` equals the free bytes of the layout;
    - every chunk's header is present with the right size and flag;
    - `freeListHead` and the `next_free` fields thread exactly the free
      chunks, in address order, ending in NULL.
  - `Init`, `Alloc`, `Free`, `Commit` and `Release` are proved to keep
    `Valid()`, and to change `blocks` exactly as the matching `Layout`
    function does. `Merge` is the header-writing step inside `Release`: it
    rewrites the headers and the list head only, and `Release` then brings
    `avail` and `blocks` up to date.

Pointers are offsets into the arena. A chunk's header is at offset `a` and
the pointer handed to the caller is `a + H`. NULL is `None`. The sizes are
those of an LP64 target:

- `H = sizeof(chunk) = 16`;
- `WORD = sizeof(void *) = 8`;
- `HEAP_SIZE = 4096`.

`heap_alloc` only clears the free flag of the chunk it hands out
(my_heap.c:80). An allocated chunk keeps its stale `next_free`; the model
does the same, and `Valid()` makes no claim about it.

## Model

| member | source | states |
|---|---|---|
| Layout.Initial | my_heap.c:32-39 | the initial layout is one free chunk of HEAP_SIZE - H payload bytes at offset 0. It keeps the invariant, all HEAP_SIZE bytes are available, and the free list is that chunk alone |
| Layout.RoundUp | my_heap.c:47-49 | the rounded request is a multiple of the word size, at least the request, and less than a word above it |
| Layout.Split | my_heap.c:56-80 | what becomes of the chosen chunk for a rounded request s. When the spare payload exceeds H (line 58), it becomes an allocated chunk of exactly s bytes followed by a free tail of the spare bytes less one header, at offset + H + s (lines 59-64). Otherwise the whole chunk is marked allocated with its old size (lines 72-80). Its contract: the first chunk is allocated at the chosen offset, there are two chunks exactly when the spare payload exceeds H, and the last one ends where the chosen chunk ended |
| Layout.Carve | my_heap.c:56-80 | the layout after heap_alloc commits chunk i: that chunk replaced by its Split, every other chunk unchanged |
| Layout.Alloc | my_heap.c:44-92 | heap_alloc on the layout. A request of 0 returns NULL and leaves the layout as it was (line 45). Otherwise the request is rounded up (lines 47-49). When no chunk fits, NULL is returned and the layout is unchanged (lines 90-91). Else the first fit is carved and its payload offset, header offset + H, is returned (line 83) |
| Layout.FirstFit | my_heap.c:51-55 | the chosen chunk is free and large enough, and no chunk below it is. None means that no chunk of the arena fits |
| Layout.FreeListMembers | my_heap.c:9-19 | a chunk is on the free list exactly when it is a chunk of the layout and is free |
| Layout.TiledFreeListOrdered | my_heap.c:110-113 | the free list of a tiled arena is in strictly ascending address order, which the walk in heap_free relies on |
| Layout.CarveInv | my_heap.c:56-80 | carving the first-fit chunk for a rounded request keeps tiling, coalescing and alignment |
| Layout.CarveAccounting | my_heap.c:56-81 | after carving, the chunk at the chosen address is allocated and holds between s and s + H payload bytes: exactly s when split, its old size when not. It is the only new allocated chunk, and avail falls by its size plus a header |
| Layout.AllocKeepsInv | my_heap.c:44-92 | heap_alloc keeps the layout invariant for every request |
| Layout.AllocCorrect | my_heap.c:44-92 | with the rounding corrected (see Findings), a request succeeds exactly when it is non-zero and some chunk fits its rounded size. A failure (size 0 or no fit) leaves the layout unchanged. A success returns a word-aligned payload offset of an allocated chunk inside the arena that holds at least the requested bytes. That chunk is the only new allocation, and avail falls by its size plus a header |
| Layout.HugeRequestFails | my_heap.c:54-91 | with the rounding corrected (see Findings), a request larger than the arena finds no chunk |
| Layout.Release | my_heap.c:104-131 | releasing chunk i. An already free chunk leaves the layout as it is. Otherwise the chunk becomes free and absorbs a free left neighbour (lines 115-118) and a free right neighbour (lines 128-131). The merged chunk sits at the lowest of their offsets and spans all their bytes but one header |
| Layout.Free | my_heap.c:94-132 | heap_free on the layout. NULL leaves it unchanged (line 95). Otherwise the header is found H bytes before the pointer (line 97) and that chunk is released; an already free chunk is left as it is (lines 99-102) |
| Layout.ReleaseShape | my_heap.c:115-131 | freeing an allocated chunk replaces it, together with a free left neighbour and a free right neighbour when there are any, by one free chunk at the lowest of their addresses. Its size is their payloads plus the absorbed headers |
| Layout.CoalesceBoth | my_heap.c:115-131 | freeing a chunk between two free neighbours leaves two chunks fewer. The left neighbour grows by both payloads and two headers |
| Layout.ReleaseInv | my_heap.c:104-131 | freeing a chunk keeps tiling, coalescing and alignment |
| Layout.ReleaseAccounting | my_heap.c:104-131 | freeing an allocated chunk removes exactly that chunk from the allocated set and raises avail by its size plus a header |
| Layout.FreeCorrect | my_heap.c:94-132 | free(NULL) and freeing a chunk that is already free change nothing. Otherwise the invariant is kept, the chunk leaves the allocated set and avail rises by its size plus a header |
| Layout.AvailAtMostSpan | my_heap.c:17 | avail never exceeds the bytes the chunks occupy, and equals them exactly when nothing is allocated |
| Layout.AllFreeIsInitial | my_heap.c:115-131 | a layout that keeps the invariant and has no allocated chunk is the initial layout |
| Layout.FreeStep | my_heap.c:94-132 | freeing one outstanding payload keeps the invariant and removes exactly that payload from the outstanding ones |
| Layout.FreeAllRestores | my_heap.c:94-132 | freeing every outstanding allocation, in any order, restores the initial layout with all HEAP_SIZE bytes available |
| Layout.DriverScenario | my_heap.c:157-178 | the demonstration sequence hands out offsets 16, 136 and 656. Freeing B and then A merges them into one chunk. D is placed at A's old offset. Freeing C and D gives back the initial layout |
| Layout.RoundUpAsWritten | my_heap.c:47-49 | the rounding as written in uint32_t arithmetic still gives a word multiple below 2^32 |
| Layout.RoundUpAsWrittenWraps | my_heap.c:48 | as written, the request 0xFFFFFFFF rounds to 0. The search then accepts the first free chunk and carves an allocated chunk of zero bytes |
| MyHeap.Heap.Init | my_heap.c:23-42 | heap_init writes one free header of HEAP_SIZE - H bytes with a NULL link at offset 0, sets avail to HEAP_SIZE and makes that chunk the head of the free list. The result is valid and describes the initial layout |
| MyHeap.Heap.Alloc | my_heap.c:44-92 | heap_alloc keeps the heap valid. Its new layout and returned pointer are those of Layout.Alloc. A NULL result leaves the headers, avail and head unchanged |
| MyHeap.Heap.Search | my_heap.c:51-55 | the walk along the free list stops at the first-fit chunk, reached as the k-th node, with prev the node before it. Running off the end means that nothing fits |
| MyHeap.SearchStep | my_heap.c:54-55 | at the k-th node the header gives the node's size and successor. A node large enough, after only smaller ones, is the first fit |
| MyHeap.SearchExhausted | my_heap.c:86-91 | when every node of the free list is too small, no chunk fits |
| MyHeap.Heap.Commit | my_heap.c:56-83 | the split or unsplit commit keeps the heap valid, leaves exactly the carved layout, and lowers avail by the chunk's new size plus a header |
| MyHeap.CommitEffect | my_heap.c:56-80 | the header writes of the commit step describe the carved layout. The free list then threads the carved layout's free chunks, with the tail (or the chunk's successor) in the chunk's place, and avail can drop by the chunk's size plus a header |
| MyHeap.ChosenHeader | my_heap.c:55-62 | the chosen node's header holds its size, its free flag and the link to the next node, and the node before it lies below it |
| MyHeap.Heap.Free | my_heap.c:94-132 | heap_free keeps the heap valid and changes the layout as Layout.Free. NULL and an already free chunk leave the heap unchanged. Otherwise avail rises by the chunk's size plus a header |
| MyHeap.Heap.Release | my_heap.c:104-131 | freeing an allocated chunk keeps the heap valid, leaves exactly the released layout, and raises avail by the chunk's size plus a header |
| MyHeap.Heap.FreeWalk | my_heap.c:107-113 | the walk stops after exactly the free chunks below the chunk being freed, with prev the last of them and current the first free chunk above it |
| MyHeap.WalkStops | my_heap.c:110-113 | when the loop condition fails, the walk has passed exactly the free chunks below the chunk being freed |
| MyHeap.FreeSlot | my_heap.c:110-113 | the free chunks below an allocated chunk come first in the free list, and the next node, if any, is above it |
| MyHeap.MergeConditions | my_heap.c:115-128 | the address test at line 115 holds exactly when the physical left neighbour is free, and the test at line 128 exactly when the right neighbour is free. prev and current are then those neighbours |
| MyHeap.Heap.Merge | my_heap.c:104-131 | the header writes of the merge: the chunk is marked free, merged into prev or linked after it, and then absorbs current when adjacent. Avail and the layout are untouched |
| MyHeap.FreeEffect | my_heap.c:104-131 | after the walk and the merge writes, the headers, the list and avail plus the chunk's bytes describe the released layout |
| MyHeap.ReleaseFreeList | my_heap.c:115-126 | the released layout's free list is the old one with the merged chunk in place of the absorbed neighbours, at the walk's slot |
| MyHeap.Heap.Walk | my_heap.c:138-147 | print_heap_state's walk from offset 0, stepping over each header and payload, meets exactly the chunks of the layout, in address order, and stops at HEAP_SIZE |

## Left out

- Output: the `printf` calls, including the messages at lines 90 and 100, are not modelled. print_heap_state is modelled as the walk it performs (`Heap.Walk`), which returns what it would print.
- The driver `main` is not modelled as a method. Its sequence of calls is stated on the layout by `Layout.DriverScenario`.
- Host memory: the two `malloc` calls in heap_init and the `free` calls at the end of `main` are not modelled. `Heap.Init` always succeeds, so the NULL returns at lines 25 and 30 are not represented.
- Payload bytes: the model keeps only the headers. What callers store in their payloads is not represented.
- Invalid pointers: `Heap.Free` requires the pointer to be NULL or the payload offset of a chunk of the arena. The C code reads whatever header lies before an arbitrary pointer, which has no meaning in the model. Freeing a chunk that is already free is modelled (it changes nothing).
- Machine addresses and pointer comparison: they are modelled as arena offsets. This assumes the arena is one contiguous buffer.
- Integer widths: `size`, `avail` and `remaining_size` are `uint32_t`. The model uses unbounded integers. All values stay below HEAP_SIZE once a chunk fits, so they cannot wrap, except in the rounding at line 48 (see Findings).
- MyHeap.Heap.Alloc: requires the request to be below 2^32, as its `uint32_t` parameter is. It rounds without wrap-around, which is the corrected behaviour (see Findings).
- MyHeap.Heap.Release: sets the free flag and adds to `avail` after the free-list walk, not before it as at lines 104-105. The walk reads neither the flag nor `avail`, so the final state is the same.
- Stale headers: the header of an absorbed chunk stays in the headers map, as its bytes stay in the arena. `Valid()` speaks only of the headers of current chunks.
- Concurrency: the C code has no locking, and none is modelled.
- Target layout: `sizeof(chunk)` and `sizeof(void *)` are fixed at their LP64 values, 16 and 8.

## Findings

| source | as written | input that shows it | evidently intended | confidence | as-written member | corrected member |
|---|---|---|---|---|---|---|
| my_heap.c:48 | `size += sizeof(void*) - (size % sizeof(void*))` in `uint32_t` wraps to 0 for requests above 0xFFFFFFF8 | `heap_alloc(h, 0xFFFFFFFF)` on a fresh heap: the size becomes 0, the first free chunk fits, and a non-NULL pointer to a zero-byte allocation is returned | round up without overflow, so that the request is refused | not executed | Layout.RoundUpAsWrittenWraps | Layout.RoundUp |
