# nginx memory and formatting core, modelled in Dafny

This project models the memory and text-formatting core of an annotated nginx source
tree. It also proves properties of that model. The model has eight modules, one per
source unit:

- **Config** (`config.dfy`). Covers `ngx_config.h` and `ngx_core.h`. It models the
  `ngx_align`/`ngx_align_ptr` rounding as a power-of-two `Align`, `ngx_min`, and the
  integer-length constants `NGX_INT32_LEN`, `NGX_INT64_LEN` and `NGX_INT_T_LEN`.
- **Format** (`format.dfy`). Covers `ngx_string.c`:
  - `ngx_cpystrn`;
  - the digit generator `ngx_sprintf_num`;
  - the raw and hex string writer `ngx_sprintf_str`;
  - the directive loop `ngx_vslprintf`, with its flag, width and length parsing, its
    conversions and its signed/unsigned casts.
- **Palloc** (`palloc.dfy`). The pool allocator of `ngx_palloc.c`:
  - create, destroy and reset;
  - `ngx_palloc`, `ngx_pnalloc`, `ngx_pmemalign` and `ngx_pcalloc`;
  - the small path, the new-block path and the large path;
  - `ngx_pfree`;
  - the cleanup list.
- **Slab** (`slab.dfy`). The shared-memory slab allocator of `ngx_slab.c`:
  - `ngx_slab_sizes_init` and `ngx_slab_init`;
  - the size-class computation;
  - the free-page list and `ngx_slab_alloc_pages`;
  - the chunk bitmap;
  - `ngx_slab_alloc_locked` for classes above the exact size.
- **Array** (`array.dfy`). Covers `ngx_array.c` and `ngx_array.h`: init, create,
  destroy, push and push_n. It includes the in-place growth at the end of the pool
  block and the relocating growth that doubles the capacity.
- **List** (`list.dfy`). Covers `ngx_list.c` and `ngx_list.h`: init, create, push,
  and the part-by-part iteration described in the header.
- **Queue** (`queue.dfy`). Covers the intrusive doubly linked queue of `ngx_queue.h`.
  It is modelled as a map from node address to its (prev, next) links. A queue is a
  ring through its sentinel.
- **Log** (`log.dfy`). Covers `ngx_log.c`:
  - the errno suffix written by `ngx_log_errno`;
  - the stderr line built by `ngx_log_stderr`;
  - the error-log path resolution of `ngx_log_init`.

The model fixes these abstractions:

- **Addresses.** Addresses are natural numbers and NULL is 0.
- **Structure sizes.** Sizes are those of an LP64 build. A word is 8 bytes,
  `sizeof(ngx_pool_t)` is 80, `sizeof(ngx_pool_data_t)` is 32, and a slab page
  descriptor is 24.
- **The system allocator.** `ngx_alloc` and `ngx_memalign` are modelled by `Heap`. It
  is a bump allocator that hands out fresh addresses above every earlier one, fails
  with NULL past a limit, and logs every `free()` in order.
- **Memory contents.** Contents are a function `Mem` from address to byte. They appear
  only where the source copies or zeroes memory: `ngx_pcalloc` and the relocating
  array growth.
- **Inputs.** Environment values become parameters:
  - the `strerror` text;
  - the success of `malloc` and of `open`;
  - the page size.

Where the source is evidently wrong, the model has two definitions. One follows the code
as written and a lemma shows the failure. The other is the corrected definition, which the
rest of the model uses. See "## Findings".

## Model

| member | source | states |
|---|---|---|
| Config.Min | src/core/ngx_core.h:55 | the result is one of the two arguments and is at most both |
| Config.Max | src/core/ngx_array.c:187 | the result is one of the two arguments and is at least both |
| Config.Align | src/core/ngx_config.h:65-67 | rounding up to a power of two a lands on a multiple of a, at least d and less than d + a |
| Config.ClearLowRoundsDown | src/core/ngx_config.h:65-67 | masking with ~(a - 1) for a power of two a rounds down to the multiple x - x % a |
| Config.AlignFacts | src/core/ngx_config.h:65-67 | the masked form (d + (a - 1)) & ~(a - 1) used by the macro is a multiple of a in [d, d + a) |
| Config.AlignFixesMultiples | src/core/ngx_config.h:65-67 | an already aligned value is left unchanged |
| Config.AlignIdempotent | src/core/ngx_config.h:65-67 | aligning twice is the same as aligning once |
| Config.AlignIsLeast | src/core/ngx_config.h:65-67 | the aligned value is the least multiple of a that is at least d |
| Config.AlignedToMultiple | src/core/ngx_config.h:62 | an address aligned to a coarser power of two is aligned to every finer one |
| Config.WordIsPow2 | src/core/ngx_config.h:62 | NGX_ALIGMENT (the word) and the pool alignment 16 are powers of two, as ngx_align_ptr needs |
| Config.Pow2 | src/core/ngx_config.h:65 | 1 << k is at least 1 |
| Config.PowerAdd | src/core/ngx_config.h:50-51 | powers add their exponents, which the digit-count bounds of the integer lengths rest on |
| Format.Repeat | src/core/ngx_string.c:516-520 | the padding run has exactly k copies of the fill byte |
| Format.NulIndex | src/core/ngx_string.c:13-31 | the index found is the first NUL, with no NUL before it |
| Format.CpyStrn | src/core/ngx_string.c:13-31 | for n > 0 the copy is the source up to its first NUL or n - 1 bytes, whichever is shorter, and is always NUL-terminated; for n = 0 nothing is written |
| Format.CpyStrnLoop | src/core/ngx_string.c:13-31 | the byte-by-byte loop writes exactly what CpyStrn describes |
| Format.DigitValueOfChar | src/core/ngx_string.c:472-473 | every hex-table digit, lower or upper case, reads back as its value |
| Format.Digits | src/core/ngx_string.c:475-514 | the digit string of a number is never empty |
| Format.DigitsRoundTrip | src/core/ngx_string.c:475-514 | reading the generated digits back in the same base gives the number |
| Format.DigitsMinimal | src/core/ngx_string.c:475-514 | the digits start with '0' exactly when the number is 0, so there are no leading zeros |
| Format.DigitsBound | src/core/ngx_string.c:469 | a number below base^k has at most k digits |
| Format.LeadingZeros | src/core/ngx_string.c:516-520 | zero padding in front of the digits does not change the value they denote |
| Format.DigitLoop | src/core/ngx_string.c:475-514 | the do/while loop that fills temp from the end yields exactly the digit string |
| Format.ConvertNumber | src/core/ngx_string.c:469-514 | the decimal or hex conversion fits the NGX_INT64_LEN temp buffer |
| Format.DigitsFitTemp | src/core/ngx_config.h:50-51 | a 64-bit value has at most NGX_INT64_LEN digits and at most 16 hex digits, and a 32-bit value fewer than NGX_INT32_LEN decimal digits |
| Format.SprintfNum | src/core/ngx_string.c:464-530 | the output is the zero or space padding up to the width followed by the digits, cut at the room left |
| Format.SprintfNumLoop | src/core/ngx_string.c:516-529 | the padding loop and the copy bounded by last write exactly what SprintfNum describes |
| Format.NumRoundTrip | src/core/ngx_string.c:464-530 | with room, the output is max(width, digits) long, reads back as the number, and with '0' padding the whole field reads back as the number |
| Format.HexEncode | src/core/ngx_string.c:550-575 | hex encoding doubles the length |
| Format.HexRoundTrip | src/core/ngx_string.c:550-575 | decoding the hex pairs gives back the source bytes |
| Format.SprintfStr | src/core/ngx_string.c:532-578 | raw mode copies the source prefix that fits; hex mode writes whole pairs only, in the requested letter case, and the pairs decode to the source prefix |
| Format.CopyToNul | src/core/ngx_string.c:537-545 | the loop for a NUL-terminated source copies up to the NUL or the room, whichever comes first |
| Format.HexToNul | src/core/ngx_string.c:551-555 | the hex loop for a NUL-terminated source encodes the prefix up to the NUL that fits in whole pairs |
| Format.HexOfLength | src/core/ngx_string.c:556-560 | the hex loop for a given length encodes the prefix that fits in whole pairs |
| Format.SprintfStrLoop | src/core/ngx_string.c:532-578 | the three loops together compute SprintfStr |
| Format.ParseNumber | src/core/ngx_string.c:146-148 | the width scan stops at the first non-digit after a run of digits |
| Format.ParseNumberValue | src/core/ngx_string.c:146-148 | the accumulated width is the decimal value of the scanned digits, modulo 2^64 |
| Format.ParseFlags | src/core/ngx_string.c:151-195 | the flag loop stops inside the format, consumes only available arguments, and keeps the zero byte and the width |
| Format.FlagStep | src/core/ngx_string.c:151-195 | one flag character changes the spec and the scan continues at the next character |
| Format.FlagsSummary | src/core/ngx_string.c:151-195 | after a run of flags, the sign is cleared unless every flag is 'm' (so 'u' clears it), and max-width is set exactly when an 'm' occurs |
| Format.FlagsHex | src/core/ngx_string.c:151-195 | the hex mode is that of the last 'x' or 'X' flag, or unchanged when there is none |
| Format.ParseDirective | src/core/ngx_string.c:138-195 | parsing a directive moves past the '%' to the conversion character and consumes only available arguments |
| Format.DirectiveWidth | src/core/ngx_string.c:138-148 | the fill is '0' exactly when the directive starts with '0', and the width is the value of the digit run |
| Format.Signed64 | src/core/ngx_string.c:271 | the 64-bit signed cast lies in the int64 range |
| Format.Signed32 | src/core/ngx_string.c:271 | the 32-bit signed cast lies in the int32 range |
| Format.Unsigned64 | src/core/ngx_string.c:381-387 | the 64-bit unsigned cast lies below 2^64 |
| Format.Unsigned32 | src/core/ngx_string.c:224-387 | the 32-bit unsigned cast lies below 2^32 |
| Format.NumberArg | src/core/ngx_string.c:224-387 | the number fetched for a numeric conversion is within its type's range and carries a valid hex mode |
| Format.PrintNumber | src/core/ngx_string.c:441-451 | a negative signed value is written as '-' followed by its magnitude with one byte less room; otherwise the value goes to sprintf_num unchanged |
| Format.Convert | src/core/ngx_string.c:198-416 | a conversion writes within the room, moves one past the conversion character, and consumes only available arguments |
| Format.StepAt | src/core/ngx_string.c:124-457 | one pass of the loop writes within the room and always moves forward in the format |
| Format.Vslprintf | src/core/ngx_string.c:99-462 | the formatted output never exceeds the room between buf and last |
| Format.PlainFormatCopied | src/core/ngx_string.c:456-457 | a format without '%' is copied up to its NUL, cut at the room |
| Format.UnknownDirectiveCopied | src/core/ngx_string.c:412-415 | an unknown conversion character is written as itself and no argument is consumed |
| Format.BareDirective | src/core/ngx_string.c:138-195 | a '%' directly followed by the conversion character is parsed with the default spec (space fill, no width, signed) |
| Format.NumericConversion | src/core/ngx_string.c:224-451 | a numeric conversion writes the sign-handled digits of its integer argument and consumes that argument |
| Format.PointerNumber | src/core/ngx_string.c:381-387 | %p writes the pointer as exactly 16 upper-case hex digits, zero padded, which read back as the address |
| Format.PointerDirective | src/core/ngx_string.c:381-387 | the %p directive consumes one argument and writes its padded hex form |
| Format.NegativeNumber | src/core/ngx_string.c:441-448 | a negative int is written as '-' followed by the decimal digits of its magnitude |
| Format.NegativeDecimal | src/core/ngx_string.c:271 | %d of a negative int writes '-' and the magnitude's digits and consumes one argument |
| Format.StringDirective | src/core/ngx_string.c:216-222 | %s writes the C string up to its NUL, cut at the room, and consumes one argument |
| Palloc.Malloc | src/os/unix/ngx_alloc.c:5-16 | a successful allocation is a fresh, aligned address whose bytes lie above everything handed out before; a failure leaves the heap unchanged |
| Palloc.Free | src/os/unix/ngx_alloc.c:5-16 | free(NULL) does nothing, and any other free is logged in order |
| Palloc.CreatePool | src/core/ngx_palloc.c:8-50 | a new pool has one block whose cursor is past the header and whose end is base + size; max is min(size - header, pagesize - 1); the lists are empty; a failure leaves the heap alone |
| Palloc.Candidate | src/core/ngx_palloc.c:187-195 | the candidate address is the cursor, rounded up to a word when alignment is asked for |
| Palloc.FindFit | src/core/ngx_palloc.c:184-206 | the search returns the first block from current on with room for the request |
| Palloc.PallocSmall | src/core/ngx_palloc.c:174-222 | the first fitting block from current serves the request by bumping its cursor; the result is aligned when asked for; the request fails only when no block fits and a new block cannot be had |
| Palloc.BumpKeepsWf | src/core/ngx_palloc.c:197-203 | bumping the chosen block's cursor keeps every block well formed and places the request inside that block |
| Palloc.CountFailuresSpec | src/core/ngx_palloc.c:311-315 | every block from current on except the last gets failed + 1, and current moves past each block whose count was above 4 |
| Palloc.CountFailuresFromCurrent | src/core/ngx_palloc.c:311-315 | the failure count pass keeps the block layout and meets its specification |
| Palloc.PallocBlock | src/core/ngx_palloc.c:233-320 | a new block of the pool's block size is appended and serves the request at its word-aligned start |
| Palloc.PallocBlockGrows | src/core/ngx_palloc.c:233-320 | the new block is fresh memory of the same size as the first; the request sits right after its header; the failure counts follow CountFailures |
| Palloc.NewBlockAligned | src/core/ngx_palloc.c:297-299 | on a 16-byte aligned block, the data start after the header needs no further word alignment |
| Palloc.ReusableSlot | src/core/ngx_palloc.c:345-361 | the scan finds the first large entry without memory among the first slots the counter allows, or reports none |
| Palloc.FirstFiveSlots | src/core/ngx_palloc.c:345-361 | starting from n = 0, an empty large entry is reused exactly when one of the first five is empty, and it is the first such |
| Palloc.PallocLarge | src/core/ngx_palloc.c:331-380 | the large allocation is fresh memory; it reuses the first empty slot of the first five or prepends a new entry; on failure the large list is unchanged |
| Palloc.PallocAligned | src/core/ngx_palloc.c:145-165 | a request up to max is served from the blocks; a larger one from the system allocator; cleanups and max are untouched |
| Palloc.Palloc | src/core/ngx_palloc.c:145-153 | a small ngx_palloc result is word aligned |
| Palloc.Pnalloc | src/core/ngx_palloc.c:157-165 | a small ngx_pnalloc request is placed exactly at the cursor of the first fitting block, without alignment |
| Palloc.Memalign | src/os/unix/ngx_alloc.c:86-99 | posix_memalign succeeds only for a power-of-two alignment that is a multiple of the pointer size, and then returns a fresh address with that alignment; a failure returns NULL and leaves the heap alone |
| Palloc.Pmemalign | src/core/ngx_palloc.c:388-408 | the aligned allocation is recorded at the front of the large list; an invalid alignment gives NULL and leaves everything unchanged |
| Palloc.FindLarge | src/core/ngx_palloc.c:415-416 | the search returns the first large entry holding the pointer |
| Palloc.Pfree | src/core/ngx_palloc.c:412-426 | NGX_OK exactly when the pointer equals some large entry's alloc, so NULL matches an entry already freed; then the first such entry is cleared and its alloc freed; otherwise NGX_DECLINED and nothing changes |
| Palloc.Pcalloc | src/core/ngx_palloc.c:429-438 | the result is that of ngx_palloc; its bytes are zero and all other memory is unchanged |
| Palloc.CleanupAdd | src/core/ngx_palloc.c:450-487 | a new cleanup entry with no handler is pushed at the front; it has data exactly when size > 0 |
| Palloc.SetCleanupHandler | src/core/ngx_palloc.c:479-482 | setting the handler of the entry just added changes only its handler |
| Palloc.LiveAllocs | src/core/ngx_palloc.c:102-106 | the allocations destroy frees are non-NULL addresses from the large list |
| Palloc.FreeLarge | src/core/ngx_palloc.c:127-131 | freeing the large list logs exactly its live allocations |
| Palloc.Rewind | src/core/ngx_palloc.c:133-136 | every block keeps its bounds; its cursor returns to just past the pool header and its failure count to 0 |
| Palloc.ResetPool | src/core/ngx_palloc.c:123-141 | reset frees the large allocations, rewinds every block, empties the large list and sets current to the first block |
| Palloc.CleanupRuns | src/core/ngx_palloc.c:69-74 | destroy runs only handlers that are set |
| Palloc.DestroyPool | src/core/ngx_palloc.c:56-120 | destroy runs the cleanups, then frees the large allocations, then each block once; no cleanup runs after a free |
| Palloc.SmallKeepsSound | src/core/ngx_palloc.c:174-222 | a small allocation keeps blocks and large allocations pairwise disjoint |
| Palloc.SmallAllocationsDisjoint | src/core/ngx_palloc.c:174-222 | two successive small allocations do not overlap |
| Palloc.LargeKeepsSound | src/core/ngx_palloc.c:331-380 | a large allocation keeps blocks and large allocations pairwise disjoint |
| Palloc.PallocKeepsSound | src/core/ngx_palloc.c:145-165 | ngx_palloc and ngx_pnalloc keep the pool sound |
| Palloc.PmemalignKeepsSound | src/core/ngx_palloc.c:388-408 | ngx_pmemalign keeps the pool sound |
| Palloc.PfreeKeepsSound | src/core/ngx_palloc.c:412-426 | ngx_pfree keeps the pool sound |
| Palloc.ResetKeepsSound | src/core/ngx_palloc.c:123-141 | reset keeps the pool sound |
| Palloc.EmptyFirstBlockServes | src/core/ngx_palloc.c:174-203 | on a fresh first block, a request up to max is placed right after the pool header, without touching the heap |
| Palloc.CreatedPoolFirstAllocation | src/core/ngx_palloc.c:34-43 | the first allocation from a new pool is placed right after the pool header |
| Palloc.ResetServesFromFirstBlock | src/core/ngx_palloc.c:133-140 | after reset the next small allocation starts again right after the header of the first block |
| Palloc.ResetIdempotent | src/core/ngx_palloc.c:123-141 | resetting a reset pool changes nothing |
| Palloc.PfreeTwiceDeclined | src/core/ngx_palloc.c:412-426 | freeing the same pointer twice declines the second time |
| Palloc.PfreeSmallDeclined | src/core/ngx_palloc.c:412-426 | a pointer inside a pool block is not freed by ngx_pfree |
| Palloc.LastRegisteredRunsFirst | src/core/ngx_palloc.c:69-74 | the cleanup registered last runs first at destroy |
| Palloc.CleanupRunsComplete | src/core/ngx_palloc.c:69-74 | an entry's handler runs at destroy exactly when it is set |
| Palloc.DestroyBlocksAsWritten | src/core/ngx_palloc.c:113-119 | as written, the loop frees the first block once per block |
| Palloc.DestroyAsWrittenDoubleFree | src/core/ngx_palloc.c:113-119 | with two blocks the code as written frees the first twice and never the second, where DestroyPool frees each once |
| Palloc.FitWrapsAsWritten | src/core/ngx_palloc.c:197 | the unsigned end - m wraps when the aligned cursor passes end, so the code as written accepts a block that has no room |
| Palloc.FitsAgreeOnWordSizedBlocks | src/core/ngx_palloc.c:197 | when block ends are word aligned, the test as written and the corrected test agree |
| Palloc.LargeScanUninitialisedCounter | src/core/ngx_palloc.c:333-358 | the slot scan depends on the unset counter: from 0 it reuses slot 1, from 4 it reuses nothing |
| Array.MemCopy | src/core/ngx_array.c:131 | the destination range takes the source bytes and all other memory is unchanged |
| Array.MemCopyBytes | src/core/ngx_array.c:131 | the bytes read back from the destination are the source bytes |
| Array.ArrayInit | src/core/ngx_array.h:24-41 | the array starts empty with the requested element size and capacity; NGX_ERROR exactly when the element storage cannot be had |
| Array.ArrayCreate | src/core/ngx_array.c:5-30 | creation fails exactly when the header or the storage cannot be had; a created array is empty and well formed |
| Array.ArrayDestroy | src/core/ngx_array.c:33-71 | destroy gives back the storage, then the header, only when each ends at the first block's cursor, and touches nothing else |
| Array.InPlaceKeepsWf | src/core/ngx_array.c:92-109 | growing in place at the end of the first block keeps the pool well formed |
| Array.Relocate | src/core/ngx_array.c:110-134 | relocation copies the elements to the new storage, and on failure leaves array and memory alone |
| Array.GrowByOne | src/core/ngx_array.c:79-135 | in place, capacity grows by one and the cursor by one element; otherwise capacity doubles at a new place; the elements are kept |
| Array.ArrayPush | src/core/ngx_array.c:74-141 | the pushed slot is the next one after the elements, lies inside the capacity, and the old contents are a prefix of the new |
| Array.PushFollowsPolicy | src/core/ngx_array.c:79-135 | push grows in place when it can and otherwise doubles the capacity |
| Array.ArrayPushAsWritten | src/core/ngx_array.c:137-140 | the push as written returns a pushed result |
| Array.PushAsWrittenReusesSlot | src/core/ngx_array.c:138 | as written, two pushes return the same slot because nelts never grows, where ArrayPush returns consecutive slots |
| Array.GrowBy | src/core/ngx_array.c:151-203 | in place, capacity grows by n; otherwise it becomes 2 * max(n, nalloc) at a new place; the elements are kept |
| Array.ArrayPushN | src/core/ngx_array.c:143-209 | the n slots returned start after the elements and fit the capacity; the old contents are a prefix of the new |
| Array.PushNFollowsPolicy | src/core/ngx_array.c:151-203 | push_n grows in place when it can and otherwise doubles the larger of n and the capacity |
| Array.Claim | src/core/ngx_array.c:205-206 | claiming n slots after growth advances nelts by n and returns the first new slot |
| Array.Claimed | src/core/ngx_array.c:205-206 | an array with room for n more elements stays well formed after the claim and keeps its contents |
| Array.PushNAsWrittenUndefined | src/core/ngx_array.c:151-158 | as written, push_n has no defined result exactly when it must grow, because the test reads p unassigned |
| Array.InPlaceAsWrittenOverruns | src/core/ngx_array.c:158 | the in-place test as written admits growth past the block end, which the corrected test rejects |
| Array.CreateSucceeds | src/core/ngx_array.c:5-30 | when both allocations succeed, the header comes first and the storage right after it |
| Array.CreateInFirst | src/core/ngx_array.c:5-30 | on a first block with room, creation places header and storage at the cursor |
| Array.TwoFromFirst | src/core/ngx_palloc.c:145-153 | two allocations that fit the first block are laid out back to back |
| Array.CreateThenDestroy | src/core/ngx_array.c:33-71 | destroying a freshly created array returns the first block's cursor to the word-aligned cursor the header was placed at |
| List.PartSlots | src/core/ngx_list.h:47-69 | the i-th element of a part is at elts + size * i |
| List.SlotsCount | src/core/ngx_list.h:47-69 | the walk visits as many elements as the parts hold |
| List.ListInit | src/core/ngx_list.h:30-44 | init makes one empty part over fresh storage and fails exactly when the storage cannot be had |
| List.ListCreate | src/core/ngx_list.c:5-25 | create fails exactly when the header or the storage cannot be had; a created list is one empty part |
| List.ListPush | src/core/ngx_list.c:28-63 | a push appends exactly one new element slot to the walk and keeps the list well formed |
| List.NewPart | src/core/ngx_list.c:34-57 | a full last part is followed by a new part whose first slot is the one returned |
| List.BumpLastFacts | src/core/ngx_list.c:59-60 | with room in the last part, the next slot of that part is appended |
| List.AppendPartFacts | src/core/ngx_list.c:34-57 | linking a new one-element part appends its first slot |
| List.Iterate | src/core/ngx_list.h:47-69 | the iteration loop described in the header visits every element, in order |
| List.TakeOneMore | src/core/ngx_list.h:53-68 | one more step of the inner loop visits the next element of the part |
| List.WalkedAll | src/core/ngx_list.h:47-69 | reaching the end of the last part means every element was visited |
| List.ChainEnd | src/core/ngx_list.h:59-61 | a part's next is NULL exactly when it is the last part |
| List.NextPart | src/core/ngx_list.h:59-66 | moving to the next part continues the walk, and that part is not empty |
| Queue.Init | src/core/ngx_queue.h:56-58 | init points the sentinel at itself and leaves every other node alone |
| Queue.InsertHead | src/core/ngx_queue.h:70-74 | x goes between h and its old next; only those three nodes change |
| Queue.InsertTail | src/core/ngx_queue.h:85-89 | x goes between the old last node and h; only those three nodes change |
| Queue.Remove | src/core/ngx_queue.h:135-137 | x's neighbours are linked to each other; nothing else changes |
| Queue.RemoveDebug | src/core/ngx_queue.h:126-130 | the debug remove does the same and also clears x's links |
| Queue.InitIsEmpty | src/core/ngx_queue.h:56-63 | a freshly initialised queue holds no elements and is empty |
| Queue.EmptyIff | src/core/ngx_queue.h:62-63 | ngx_queue_empty holds exactly when the queue holds no elements |
| Queue.HeadAndLast | src/core/ngx_queue.h:96-110 | head is the first element and last the last one, or the sentinel when the queue is empty |
| Queue.Walk | src/core/ngx_queue.h:114-120 | next and prev step through the elements in order and end at the sentinel |
| Queue.InsertAfterRing | src/core/ngx_queue.h:78 | inserting after any node of a ring splices x in right after it |
| Queue.InsertHeadQueue | src/core/ngx_queue.h:70-74 | insert_head makes x the first element, in front of the old ones |
| Queue.InsertTailQueue | src/core/ngx_queue.h:85-89 | insert_tail makes x the last element, after the old ones |
| Queue.TailIsAfterLast | src/core/ngx_queue.h:85-89 | inserting at the tail is inserting after the last node |
| Queue.RemoveRing | src/core/ngx_queue.h:135-137 | removing a non-sentinel node of a ring leaves the ring without it |
| Queue.RemoveQueue | src/core/ngx_queue.h:135-137 | remove drops exactly that element and keeps the order of the others |
| Queue.RemoveDebugQueue | src/core/ngx_queue.h:126-130 | the debug remove leaves the same queue |
| Queue.InsertHeadThenRemove | src/core/ngx_queue.h:70-74 | inserting x at the head and removing it restores every other node's links |
| Queue.InsertTailThenRemove | src/core/ngx_queue.h:85-89 | inserting x at the tail and removing it restores every other node's links |
| Queue.SameRingSameLinks | src/core/ngx_queue.h:114-120 | the order of a ring fixes all its links |
| Slab.ShiftLoop | src/core/ngx_slab.c:64-66 | the shift loop counts the binary logarithm of the exact size |
| Slab.SizesInit | src/core/ngx_slab.c:59-67 | max size is half a page, exact size is a page over the bits in a word, and exact shift is its logarithm |
| Slab.ExactShiftMatchesSize | src/core/ngx_slab.c:59-67 | for a power-of-two page, exact size is a power of two and 2^exact_shift is exact size |
| Slab.PageAddr | src/core/ngx_slab.c:170 | a page's address lies at or above the start of the pages |
| Slab.SlabInit | src/core/ngx_slab.c:70-184 | init makes empty slot heads and zero stats; the page start is page aligned; the page count is cut back until every page fits before the end; one free run holds every page |
| Slab.InitGeometry | src/core/ngx_slab.c:154-176 | there is at least one descriptor; the start is page aligned; the usable pages fit before end, and one more would not |
| Slab.UsablePages | src/core/ngx_slab.c:172-176 | the cut-back count is the number of whole pages that fit, up to the descriptor count |
| Slab.InitIsWf | src/core/ngx_slab.c:70-184 | a freshly initialised zone is well formed |
| Slab.PageInZone | src/core/ngx_slab.c:170-178 | every page is page aligned and ends before the zone does |
| Slab.ChunkInPage | src/core/ngx_slab.c:252-267 | every chunk of a class lies inside its page and is aligned to its size |
| Slab.ClassFor | src/core/ngx_slab.c:207-213 | a request above the minimum gets the least power-of-two class that holds it, in the slot of that shift; smaller requests get the minimum class in slot 0 |
| Slab.ClassShift | src/core/ngx_slab.c:207-211 | the corrected shift loop ends with the class shift, which is the least power of two that holds the request |
| Slab.OneKiBClass | src/core/ngx_slab.c:207-213 | a 1 KiB request goes to shift 10 in slot 7, and an 8-byte request to slot 0, with minimum shift 3 |
| Slab.ShiftLoopDivergesAsWritten | src/core/ngx_slab.c:209 | as written, the shift loop never changes s and does not end for any request above the minimum |
| Slab.SmallClassWrongAsWritten | src/core/ngx_slab.c:212 | as written, a small request takes the minimum size, not its shift, as the shift and leaves the slot unset |
| Slab.SetNext | src/core/ngx_slab.c:162-168 | writing a link's next changes that link only |
| Slab.SetPrev | src/core/ngx_slab.c:162-168 | writing a link's prev changes that link only |
| Slab.FindRun | src/core/ngx_slab.c:316-317 | a run found on the free list has at least the requested number of pages |
| Slab.ChainFitSpec | src/core/ngx_slab.c:316-317 | the search finds the first run on the list that is large enough, and nothing exactly when none is |
| Slab.FindRunFollowsChain | src/core/ngx_slab.c:316-317 | walking the free list by its links visits the runs in list order |
| Slab.CarveRemainder | src/core/ngx_slab.c:327-344 | the remainder of a split run gets its own descriptor with the rest of the pages and the old links |
| Slab.SplitRun | src/core/ngx_slab.c:327-356 | splitting a run changes only the page descriptors and the free head |
| Slab.AllocPages | src/core/ngx_slab.c:309-382 | a page taken is marked busy and the free count drops; slots and stats are untouched; no run means nothing changes |
| Slab.SplitKeepsChain | src/core/ngx_slab.c:327-369 | after the split, the free list holds the remainder in the run's place with the rest of its pages |
| Slab.AllocOnePage | src/core/ngx_slab.c:309-376 | one page from a longer first run is that run's first page, and the remainder heads the list |
| Slab.ExactFitStaysListed | src/core/ngx_slab.c:358-369 | a run of exactly one page is taken but, as the unlinking branch is empty, stays at the head of the list |
| Slab.EmptyListNoPages | src/core/ngx_slab.c:316-382 | with an empty free list, the corrected page allocation returns NULL and changes nothing |
| Slab.AllocPagesAsWritten | src/core/ngx_slab.c:309-382 | as written, a page taken lies inside the descriptor array |
| Slab.SplitAsWrittenLosesRemainder | src/core/ngx_slab.c:354-356 | as written, the split links the list head to the taken run's old next and loses the remainder, so the next page request has no defined result |
| Slab.NoRunUndefinedAsWritten | src/core/ngx_slab.c:379-382 | as written, with no free run the function ends without a return value, where the corrected one returns NULL |
| Slab.FreeChunkSpec | src/core/ngx_slab.c:243-267 | the bitmap scan finds the first free chunk of the page, and nothing exactly when every chunk is busy |
| Slab.ScanAsWrittenNeverEnters | src/core/ngx_slab.c:243-246 | as written, the scan's mask test never lets it enter, so a class page is never reused |
| Slab.ScanFindsSecondChunk | src/core/ngx_slab.c:246-267 | with the first chunk busy, the corrected scan finds the second |
| Slab.NewClassPage | src/core/ngx_slab.c:272-305 | taking a new page for a class changes only pages, slots, stats and the free count |
| Slab.NewClassPageAsWritten | src/core/ngx_slab.c:272-305 | as written, a chunk is returned only when the corrected definition returns the same one |
| Slab.ExhaustedZoneUndefinedAsWritten | src/core/ngx_slab.c:272-305 | with no free page the code as written returns an unset pointer, where the corrected definition returns NULL and counts a failure |
| Slab.AllocLocked | src/core/ngx_slab.c:187-306 | an allocation changes only pages, slots, stats and the free count |
| Slab.AllocLockedEmptyClass | src/core/ngx_slab.c:226-228 | a class with no page takes a new page |
| Slab.AllocLockedHeadPage | src/core/ngx_slab.c:226-267 | a class whose head page has a free chunk serves from that page |
| Slab.NewClassPageTakes | src/core/ngx_slab.c:272-296 | the new page becomes the class's only page with its class shift recorded; the class gets a page's worth of chunks; one is used; the remainder heads the free list |
| Slab.FreshClassPage | src/core/ngx_slab.c:187-306 | a request in an empty class gets the first chunk of a fresh page; the chunk holds the request, lies in the zone, and the page is page aligned |
| Slab.FreshClassPageCounts | src/core/ngx_slab.c:215 | the request, the page's chunks and the one used are counted in the class stats |
| Slab.ClaimChunkFacts | src/core/ngx_slab.c:252-267 | claiming a free chunk sets its bit, counts it used, and returns an aligned address inside the page; no other descriptor changes, and a free list without the page stays the free list |
| Slab.ReuseClassPage | src/core/ngx_slab.c:226-267 | a request in a class with a partly free page gets that page's first free chunk, at an aligned address inside the page; no other descriptor, the free-list head or the slots change, and a free list without the page stays the free list |
| Slab.CountThenClaimFrame | src/core/ngx_slab.c:215-267 | counting the request and claiming a chunk of page j change no other page descriptor, so any free list that does not hold page j is still the free list |
| Slab.ExhaustedZoneFails | src/core/ngx_slab.c:187-306 | with no free page and an empty class, the corrected allocation returns NULL and counts a request and a failure |
| Slab.AllocLockedKeepsWf | src/core/ngx_slab.c:187-306 | every defined allocation keeps the zone well formed, touches only its own class's slot and stats, and a failure leaves the pages alone |
| Slab.FirstOneKiBAllocation | src/core/ngx_slab.c:187-306 | the first 1 KiB request on a fresh 4 KiB-page zone gets the first page, which heads slot 7, and the rest of the run heads the free list |
| Slab.FirstOneKiBCounts | src/core/ngx_slab.c:283-296 | that request counts 4 chunks in total, 1 used and 1 request |
| Slab.InitFitsWalkThrough | src/core/ngx_slab.c:70-184 | a freshly initialised zone with 4 KiB pages is ready for the first 1 KiB request |
| Log.Strerror | src/os/unix/ngx_errno.c:74-94 | the description written is the message cut at the room, or "Unknown error" when there is none |
| Log.ErrnoCode | src/core/ngx_log.c:134 | the errno number is written as a decimal of at most NGX_INT32_LEN characters |
| Log.DecimalLength | src/core/ngx_config.h:50 | an int's decimal text takes 1 to NGX_INT32_LEN characters |
| Log.DecimalNumber | src/core/ngx_log.c:134 | %d of the errno writes the decimal text of its 32-bit value |
| Log.ErrnoDirective | src/core/ngx_log.c:134 | the " (%d: " format writes the code and consumes the errno argument |
| Log.LogErrno | src/core/ngx_log.c:119-142 | the suffix never passes last; it is undefined only when both the room and the message are shorter than 50 bytes |
| Log.ErrnoWrite | src/core/ngx_log.c:119-142 | the suffix never passes last, whatever code text is given |
| Log.ErrnoBase | src/core/ngx_log.c:120-132 | the text kept in front of the suffix leaves the 50 bytes the suffix needs |
| Log.ErrnoTail | src/core/ngx_log.c:134-139 | the suffix is " (code: " followed by the description and ')', cut at the room |
| Log.LogErrnoText | src/core/ngx_log.c:119-142 | with room the message is kept; short of room the text is cut at last - 50 and "..." follows; then comes " (code: description)" cut at last |
| Log.LogLine | src/core/ngx_log.c:72-117 | the line starts with "nginx: ", ends with LF, and fits NGX_MAX_ERROR_STR; with an errno it holds the message and the " (code: " suffix |
| Log.ErrnoLine | src/core/ngx_log.c:106-114 | a line with an errno fits, ends with LF, and keeps the message and the suffix opening |
| Log.Terminated | src/core/ngx_log.c:110-114 | the text is clamped to last - 1 and an LF is added |
| Log.LogStderr | src/core/ngx_log.c:72-117 | a written line starts with "nginx: ", ends with LF, and fits NGX_MAX_ERROR_STR |
| Log.LineWithoutErrno | src/core/ngx_log.c:89-114 | without an errno the line is the prefix and the message, clamped, then LF |
| Log.LineInFull | src/core/ngx_log.c:72-117 | a message that fits is written in full as "nginx: " + message + " (code: description)" + LF |
| Log.ErrnoLineInFull | src/core/ngx_log.c:106-114 | a text and suffix that fit come out in full, followed by LF |
| Log.Separator | src/os/unix/ngx_files.h:133 | a '/' is added exactly when the prefix does not end in one |
| Log.JoinPath | src/core/ngx_log.c:215-241 | the joined name is at most prefix + name + 2 bytes, as allocated |
| Log.JoinPathText | src/core/ngx_log.c:215-241 | the joined name is the prefix, a '/' when needed, then the name, NUL-terminated |
| Log.CopiedWhole | src/core/ngx_log.c:241 | copying the name with its length + 1 copies it whole with its NUL |
| Log.LogInit | src/core/ngx_log.c:144-265 | an empty name logs to stderr; an absolute name is opened as given; allocation fails only for a relative name |
| Log.RelativeNameJoined | src/core/ngx_log.c:188-244 | a relative name is opened under the prefix with a '/' between them |

## Left out

- Palloc.Malloc: the system allocator is a deterministic bump heap that fails only past a fixed limit. Real malloc can fail on any call and reuses freed memory. The model keeps the fact the proofs need: a successful allocation is fresh memory.
- Palloc.Memalign: a failed posix_memalign is modelled as returning NULL. As written, ngx_memalign (src/os/unix/ngx_alloc.c:90-98) logs the error and returns `p`, which posix_memalign does not set on failure. Its callers, ngx_create_pool and ngx_palloc_block, then test that value against NULL. The model takes the NULL that the callers evidently expect.
- Palloc.CreatePool: requires size to be at least the pool header. For smaller sizes `size - sizeof(ngx_pool_t)` wraps in the source, which is not modelled.
- Array.ArrayWf: requires a capacity of at least one element. ngx_array_create accepts n = 0, and a relocating push would then request 0 bytes; that case is not modelled.
- List.ListWf: requires a capacity of at least one element per part. ngx_list_create accepts n = 0, and that case is not modelled.
- Slab.SlabInit: requires the zone to hold at least one page and its descriptor. The source's cut-back arithmetic for a smaller zone is not modelled.
- Config.Align: addresses and sizes are unbounded naturals, so the 64-bit wrap of `d + (a - 1)` and of other address arithmetic is not modelled. Only the fit test at ngx_palloc.c:197 (as written) and the free count of ngx_slab.c are taken modulo 2^64.
- Structure sizes are fixed to an LP64 build, with 8-byte words and pointers. Other data models are not covered.
- Slab.AllocPages: covers requests for one page only. For more pages the source stops at an unfinished branch (ngx_slab.c:379), so the model returns PagesUndefined.
- Format.Convert: the %f conversion (floating point) is left out and gives Undefined. The %r, %i, %O, %T and other conversions that need types outside this model also fall to Undefined when given a mistyped argument.
- Slab.AllocLockedKeepsWf: does not state that each class's used count stays at or below its total. That would need an invariant tying the chunk bitmaps to the counters, which the model does not keep. It also does not restate the free list, because each path changes it differently: ReuseClassPage keeps every free list that does not hold the reused page, FreshClassPage shows the first run one page shorter, and on NoMemory the pages and free-list head are unchanged.
- Slab.FindRun: treats a NULL link as the end of the free list, where the source would dereference it. A fuel bound of one more than the descriptor count limits the walk; FindRunFollowsChain shows that the bound is never reached on a well-formed list.
- Palloc.SmallAllocationsDisjoint: states disjointness only for two successive small allocations. The general case is covered by Sound, which every allocating operation keeps.
- Slab.CountRequest: ngx_slab.c:215 reads `pool->stats[slot].reqs++` with no `;`. When debug logging is on, `ngx_log_debug2` at line 217 expands to a statement and the code does not compile. Without debug logging the macro is empty, and the `;` that follows it at line 217 completes `reqs++`. The model counts the request, as that build does. The header defining the macro, ngx_log.h, is not part of this model.
- The slab free path (ngx_slab_free) and the chunk classes at or below the exact size are not part of the model. The source's allocation path for them is unfinished.
- Log: `write` to stderr and `open` of the log file are not modelled. The open's success is a parameter. NGX_MAX_ERROR_STR is taken as 2048 because the header that defines it is not part of this model.
- ngx_log_error_core, the errno message table, ngx_shmtx.c, ngx_shmem.c and ngx_files.c are not part of this model.

## Findings

| source | as written | input that shows it | evidently intended | confidence | as-written member | corrected member |
|---|---|---|---|---|---|---|
| src/core/ngx_slab.c:209 | `for (s = size - 1; s >> 1; shift++)` never shifts s | any request larger than the minimum size, for example 1024 | shift s right on each pass, so the shift ends at the least power of two holding the request | not executed | Slab.ShiftLoopDivergesAsWritten | Slab.ClassShift |
| src/core/ngx_slab.c:212 | `shift = pool->min_size` assigns a size where a shift is meant, and slot stays unset | a request of 8 bytes with minimum shift 3 gives shift 8, a 256-byte class | shift = min_shift and slot = 0 | not executed | Slab.SmallClassWrongAsWritten | Slab.ClassFor |
| src/core/ngx_slab.c:243-246 | the mask test guarding the bitmap scan can never pass | any class page with a free chunk, for example bitmap MapUnit + 10 with 4 chunks | scan the bitmap for the first clear bit | not executed | Slab.ScanAsWrittenNeverEnters | Slab.FreeChunkSpec |
| src/core/ngx_slab.c:354-356 | the split links the list head to the run's old next and drops the remainder | a fresh zone's single run of two or more pages, after one page is taken | link the remainder descriptor into the run's place on the free list | not executed | Slab.SplitAsWrittenLosesRemainder | Slab.SplitKeepsChain |
| src/core/ngx_slab.c:379-382 | when no run is large enough the function ends without a return statement | any request on a zone with an empty free list | return NULL | not executed | Slab.NoRunUndefinedAsWritten | Slab.EmptyListNoPages |
| src/core/ngx_slab.c:272-305 | when no page is free, control reaches done and returns p, which was never set, and the failure is not counted | any request in an empty class on a zone with an empty free list | return NULL and count one more failure for the class | not executed | Slab.ExhaustedZoneUndefinedAsWritten | Slab.ExhaustedZoneFails |
| src/core/ngx_palloc.c:113-119 | the loop calls `ngx_free(pool)` on every pass rather than `ngx_free(p)` | a pool with two blocks: the first block is freed twice and the second never | free each block once | not executed | Palloc.DestroyAsWrittenDoubleFree | Palloc.DestroyPool |
| src/core/ngx_palloc.c:333-358 | the slot counter n is tested with `n++ > 3` but never initialised | large list [alloc 4096, empty]: from n = 0 slot 1 is reused, from n = 4 nothing is reused | start n at 0 and try the first five slots | not executed | Palloc.LargeScanUninitialisedCounter | Palloc.FirstFiveSlots |
| src/core/ngx_palloc.c:197 | `(size_t) (p->d.end - m) >= size` wraps when the aligned cursor m passes end | Block(16, 96, 116, 0) with max 20: after a 17-byte request the cursor is 113, and an aligned 1-byte request passes the test although 120 > 116 | reject the block when m + size passes end | not executed | Palloc.FitWrapsAsWritten | Palloc.PallocSmall |
| src/core/ngx_array.c:138 | `a->nelts;` is a statement with no effect, so nelts never grows | two pushes on an array with spare capacity return the same slot | `a->nelts++` | not executed | Array.PushAsWrittenReusesSlot | Array.ArrayPush |
| src/core/ngx_array.c:158 | the growth test reads the pool pointer p, which push_n never assigns | any push_n that must grow the array | set `p = a->pool` before the test, as ngx_array_push does at line 90 | not executed | Array.PushNAsWrittenUndefined | Array.ArrayPushN |
| src/core/ngx_array.c:158 | the in-place test compares `elts + n * size` with the cursor and checks room for one element, while line 175 extends by n elements | a one-element array of 1-byte elements ending one byte before the cursor, with the cursor one byte before the block end, pushed by 2: the test passes and the cursor would move past the end | test `elts + size * nalloc == d.last && d.last + n * size <= d.end` | not executed | Array.InPlaceAsWrittenOverruns | Array.GrowBy |
