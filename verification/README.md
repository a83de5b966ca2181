# toylibc: a verified model of its allocator, formatter, tokenizer and memory routines

toylibc is a small freestanding C library. This project models the four parts of it whose behaviour is
hard to see from the text, in the form the C code has (globals, byte memory, buffers and loops), and
proves what they promise.

* **The heap (`src/heap.c`).** `Heap.Allocator` is the allocator over one byte array: headers and footers
  are written into the same bytes as the payloads. Underneath, `BoundaryTags` is the same code on 64-bit
  words, and `BlockList` is the allocator it should be: a list of (size, allocated) blocks.
  `TagRefinement` proves that the first does what the second does.
* **Formatting (`src/stdio.c`).** `Digits` has the digit loops and the in-place reversal, `Printf` the
  2048-byte buffer and the format loop, against an unbuffered renderer and an arbitrary `write`.
* **The shell's tokenizer (`parse_line` in `examples/shell.c`).** `ParseLine` cuts a line into arguments
  inside its own buffer and is proved against a pure tokenizer with a quoting round trip.
* **Memory routines (`src/string.c`).** `Str` has `memcpy`, `memmove` and `memset` on one shared array.

## The heap as written and as documented

The code of `src/heap.c` does not keep the invariant its own header comment documents
(`src/heap.c:29-43`). The model therefore carries one switch, `repaired`. With `false` every function and
method is the code as written. With `true` the following five places do what the comments beside them say:

| place | as written | repaired |
|---|---|---|
| `src/heap.c:264`, `:332`, `:385` | `& ~0x7UL` also clears the neighbour's ALLOC bit | only PREV_FREE is set |
| `src/heap.c:255` | the rest of a split carries PREV_FREE although the block before it was just allocated | PREV_FREE is clear |
| `src/heap.c:222-224` | `brk_grow` merges backwards but answers the old address | it answers the start of the merged block |

With the repairs every property below holds on all inputs. Without them the model says *exactly* when
things still go well: one operation at a time (`AsWritten.ReleaseExact`, `AsWritten.AllocateExact`, and the
four public calls `Heap.Allocator.Malloc`, `Calloc`, `Realloc` and `Free`, each with an if-and-only-if for
staying valid) and over whole runs (`Divergence.RunExact` on the tags, `Session.Run` for the public calls).
`Divergence.Overlap` is a run of five calls after which two live blocks overlap.

What the allocator may refuse is stated against the kernel: the model's kernel keeps a record of every call and
its answer. Apart from size 0 and products of 2^64 and more, `malloc`, `calloc` and `realloc` answer NULL only if the
last entry of that record is the refusal of exactly the growth or mapping the request needs. A request that fits into
a free block asks the kernel nothing.

A single unrepaired call from a documented heap damages tags only, never live bytes: that every live payload
byte is kept, that what is handed out overlaps nothing live, and that `calloc`'s zeros and `realloc`'s copy
are in place hold for all four calls with no condition. `Scars` says what the damage is: all sizes stay
right, the block handed out has a wrong flag in its header or right behind it, and the release that
`realloc` makes afterwards can run inside the heap but cannot mend it.

Other places where code and documentation differ, modelled as the code is: user pointers are 8 modulo 16
(the repository's README, line 72, promises 16-byte alignment; it is the headers that are aligned), and a
mapping holds 8 bytes more than `realloc` takes it to hold, so that moving a mapping to a larger one can lose
up to 8 bytes of what was asked for. `HeapFacts.MappingMoveExact` gives the two sizes for which it does,
`Session.LastByte` is a client that loses one.

NULL is 0 (in `ParseLine`, where 0 is a valid index, it is -1). An address is an index into the memory array, a word is a natural number below 2^64, little
endian. Sizes that would wrap are written out with `% WORD`.

## Files

| file | content |
|---|---|
| `Machine.dfy`, `CString.dfy` | powers and word size; NUL-terminated strings and `strlen` |
| `BlockList.dfy` | the list allocator and its laws |
| `BoundaryTags.dfy` | tags, the heap code on words, the documented invariant `Repr` |
| `Bits.dfy` | the macros bit by bit |
| `Tiling.dfy` | heaps with right sizes and possibly wrong flags |
| `TagRefinement.dfy`, `Frames.dfy` | refinement of the list allocator; what operations leave alone |
| `AsWritten.dfy`, `Scars.dfy`, `Divergence.dfy` | the unrepaired code, exactly |
| `HeapRuns.dfy` | whole runs of the heap with its clients' stores |
| `Bytes.dfy`, `Kernel.dfy`, `HeapFacts.dfy`, `Heap.dfy` | words in bytes, the kernel, and the allocator class |
| `Session.dfy` | whole runs of the public calls, both tiers together |
| `Str.dfy`, `Digits.dfy`, `Printf.dfy`, `ParseLine.dfy` | the other three parts |

Many proofs start with a `hide` statement; it only keeps definitions away from the solver.

## Model

| member | source | states |
|---|---|---|
| Bits.TagMacros | src/heap.c:65-67 | for every 64-bit word the masks of the source (`& ~7`, `& 1`, `& 2`, `& ~2`, `\| 2`), computed bit by bit, are the arithmetic the model uses for tags |
| Bits.TagOr | src/heap.c:29-32 | a tag put together with `\|` from a rounded size and the two flags is their sum |
| Bits.AlignUpLeast | src/heap.c:70 | ALIGN_UP(n, 2^k) reaches n if and only if the sum does not wrap at 2^64, and is then the least multiple of 2^k that does |
| Bits.MmapTotalExact | src/heap.c:94-96 | the length mapped for a request holds request and header if and only if the request is at most 2^64 - 4104, and is then the multiple of 4096 less than one page above |
| BoundaryTags.TagParts | src/heap.c:62-67 | size and both flags can be read back from every tag, and what each tag update does to it, repaired and as written |
| BoundaryTags.ReprAppend | src/heap.c:16-21 | the invariant of adjoining stretches is the invariant of the whole, the PREV_FREE bit at the seam included |
| BoundaryTags.Splice | src/heap.c:37-41 | rewriting a window of blocks in place keeps the whole heap documented if the window and the header right behind it are |
| BoundaryTags.BlockAt | src/heap.c:16-27 | where each block starts, ends and meets its neighbours, and what its header and footer hold |
| BlockList.FirstFitIsFirst | src/heap.c:234-286 | the index searched for is the lowest free block that is large enough |
| TagRefinement.FindRefines | src/heap.c:232-286 | the walk over the tags stops exactly at that block, else runs off the end; it never takes its zero-size exit, which is a third outcome of the model |
| TagRefinement.WalkVisits | src/heap.c:232-286 | the walk reads the blocks' headers in order, each once, up to the one that fits; every one lies inside the heap |
| BlockList.TakeFitList | src/heap.c:241-283 | taking a block from its front keeps the total and adds exactly one live block, at the front |
| BlockList.TakeFitNumbers | src/heap.c:242-279 | with 32 bytes or more to spare the list has one block more, the request of exactly the bytes asked for and a free one with the rest right behind; with less the whole block is handed out; every other block stays |
| BlockList.PageUpBounds | src/heap.c:195-196 | growth is by the multiple of 4096 that reaches the request and is less than one page above it |
| BlockList.FreedList | src/heap.c:314-388 | releasing keeps the total and ends exactly one live block, of the size in the list |
| BlockList.ExtendList | src/heap.c:193-225 | growth adds exactly the new bytes to the total and one live block at the end |
| BlockList.LiveDisjoint | src/heap.c:18-24 | live blocks of a list never overlap |
| BlockList.TakeThenFree | src/heap.c:241-337 | taking a block and releasing it at once restores the list, in the split and the whole-block case |
| BlockList.NothingLive | src/heap.c:37-38 | with nothing live a heap is empty or one single free block |
| BlockList.AllocListLive | src/heap.c:230-309 | one request adds one live block of at least the size asked for at a fresh address; the heap grows only if nothing fits, by the page-rounded size |
| TagRefinement.TakeRefines | src/heap.c:241-283 | writing the tags of a taken block refines the list operation, split or whole |
| TagRefinement.TakeNumbers | src/heap.c:242-279 | in numbers: the two or four tags that a taken block and its rest have, split from 32 spare bytes on |
| TagRefinement.MergeEffect | src/heap.c:342-388 | everything one call of merge changes, for free neighbours on either, both or no side |
| TagRefinement.ReleaseRefines | src/heap.c:314-337 | releasing with two-sided coalescing refines the list operation |
| TagRefinement.ExtendRefines | src/heap.c:193-225 | growth, merging and handing out the new block refine the list operation |
| TagRefinement.AllocateRefines | src/heap.c:230-309 | the whole of brk_alloc refines the list allocator: resulting blocks, end of heap and answer |
| TagRefinement.LiveHeader | src/heap.c:29-32 | in a documented heap a live block's header is marked allocated and the header behind it has no PREV_FREE |
| Frames.AllocateSpares | src/heap.c:230-309 | no allocation, repaired or as written, writes a word of a payload that is live before it |
| Frames.ReleaseSpares | src/heap.c:314-388 | no release, repaired or as written, writes a word of a payload that is live before it, even in a heap whose flags are already wrong |
| Frames.AllocateOutside | src/heap.c:193-309 | an allocation writes nothing outside the heap, repaired or not |
| Frames.StoreKeeps | src/heap.c:16-27 | whatever clients store into live payloads, the tags stay as documented |
| HeapRuns.StepKeeps | src/heap.c:179-388 | every legal step keeps: documented heap, live blocks exactly those handed out, stored words intact |
| HeapRuns.RunKeeps | src/heap.c:179-388 | the same over every run of requests, frees and client stores |
| HeapRuns.SafeFromStart | src/heap.c:179-388 | from an empty heap, after any legal run: live blocks disjoint, no stored word lost, and with everything freed one single free block whatever the order of the frees |
| HeapRuns.AllocateThenRelease | src/heap.c:241-337 | on the tags: a request served from an existing block and released at once leaves the same block list |
| AsWritten.ReleaseExact | src/heap.c:314-388 | the code as written keeps the documented heap and all other live blocks if and only if nothing above the freed block is in use |
| AsWritten.AllocateExact | src/heap.c:230-309 | the code as written keeps the documented heap and all live blocks if and only if it does not split and does not grow behind a free last block |
| Scars.AllocateTiles | src/heap.c:230-309 | after any allocation from a documented heap, repaired or as written, all sizes are right and everything a later release relies on holds |
| Scars.AllocateScars | src/heap.c:230-309 | an unsafe allocation as written leaves the block handed out with a wrong flag: its own ALLOC, or PREV_FREE behind it |
| Scars.ReleaseMendsNothing | src/heap.c:314-388 | as written, a release never sets ALLOC and never clears PREV_FREE in another block's header |
| Scars.ReleaseStaysScarred | src/heap.c:155-172 | so after an unsafe allocation the release of any older block does not give a documented heap |
| Divergence.StepExact | src/heap.c:230-388 | as written, a legal step from a good state leads to a good state if and only if a test on tags and live addresses holds before it |
| Divergence.RunExact | src/heap.c:230-388 | as written, a legal run stays good all the way if and only if that test holds at each step |
| Divergence.Overlap | src/heap.c:241-388 | malloc(64), malloc(128), malloc(256), free of the second, malloc(5000): the last block covers the live third one |
| Bytes.ViewPatched | src/heap.c:104-105 | a word store into the bytes changes one aligned word and no other |
| Bytes.ByteOf | src/heap.c:29-32 | byte k of a stored word is the one of weight 256^k |
| Bytes.SameByte | src/heap.c:16-27 | equal words mean equal bytes, so frames on words are frames on payload bytes |
| KernelModel.Kernel.Brk | src/syscall.c:98-111 | the break moves to the requested address or stays, away from every mapping; call and answer are recorded |
| KernelModel.Kernel.Mmap | src/heap.c:98-102 | a fresh page-aligned region disjoint from all others, or the -1 that the caller tests for; call and answer are recorded |
| Heap.Allocator.HeapInit | src/heap.c:179-187 | the heap starts empty, both bounds at the break rounded up to 16; the kernel is asked where the break is, and to move it up only if it is no multiple of 16 |
| Heap.Allocator.Merge | src/heap.c:342-388 | the C statements compute the merge on words, inside the heap's bounds |
| Heap.Allocator.BrkRelease | src/heap.c:314-337 | frees block i of the list in any heap with right sizes; from a documented heap the result is documented if and only if repaired or nothing above is live; as written a wrong flag elsewhere stays |
| Heap.Allocator.TakeAt | src/heap.c:241-283 | the split test and both ways of taking a block, statement by statement: from 32 spare bytes on the rest gets tags of its own, with less the whole block is taken; the tags are given as numbers |
| Heap.Allocator.BrkGrow | src/heap.c:193-225 | the kernel is asked for exactly the end of the heap plus the page-rounded size; if it moves there the heap is longer by that much and ends at the break, and if it does not the answer is NULL and nothing changes |
| Heap.Allocator.FindFit | src/heap.c:232-286 | the loop finds the list allocator's first fit or runs off the end |
| Heap.Allocator.BrkAlloc | src/heap.c:230-309 | with a fit the kernel is not asked and the lowest fit is taken, split from 32 spare bytes on; without one it is asked for exactly one growth; NULL if and only if nothing fits and this growth was refused; the walk and the growth compute the list allocator's answer; the result is documented if and only if repaired or safe; failure changes nothing |
| Heap.Allocator.BlocksHavePayload | src/heap.c:27-43 | at any time, even after an unsafe call, every block has at least 32 bytes and a size that is a multiple of 16 |
| Heap.Allocator.Malloc | src/heap.c:88-115 | exactly what the kernel is asked: nothing for size 0 or when a block fits, one mapping from 131072 bytes on, else one growth, behind the set-up in the first call; NULL if and only if the size is 0 or that very mapping or growth was refused; repaired or as written, no live byte changes, and the answer is NULL or an address 8 modulo 16 with the size asked for inside the one payload that was added; valid afterwards if and only if repaired, or not served from the brk heap, or safe, and then the pointer is that payload's start |
| Heap.Allocator.Free | src/heap.c:117-133 | a mapped pointer unmaps exactly its mapping, any other goes to the brk heap whatever its size and asks nothing of the kernel; exactly this block is given up and no live byte changes, repaired or as written; a valid allocator stays valid if and only if repaired, or a mapping, or topmost |
| Heap.Allocator.Calloc | src/heap.c:135-144 | NULL if and only if the product is 0, or 2^64 or more, or exactly the mapping or growth it needs was refused by the kernel; otherwise n*sz zero bytes and no live byte changed, repaired or as written; valid afterwards if and only if repaired, or the product is 0 or mapped, or the allocation is safe |
| Heap.Allocator.Realloc | src/heap.c:146-173 | same pointer, asking the kernel nothing, if and only if the usable size is below 128 KB and suffices; otherwise NULL if and only if the mapping or growth for the new size was refused, and then the old block stays live and unchanged; a moved block keeps its first min(usable, new) bytes, and one moved to a mapping holds behind them what that memory held before; no live byte changes, repaired or as written; a move leaves a valid allocator if and only if repaired, or the allocation is safe and the old block is a mapping or topmost after it |
| Heap.Allocator.PayloadsAreSane | src/heap.c:104-106 | payloads of both tiers lie inside memory and never overlap |
| HeapFacts.OverflowTest | src/heap.c:137-138 | the division test on the wrapped product rejects exactly the products of 2^64 and more |
| HeapFacts.HeaderOf | src/heap.c:121-126 | the header in front of a live pointer and free's range test tell the two tiers apart |
| HeapFacts.NeedBounds | src/heap.c:113 | the block for a request is the multiple of 16 that has room for it between header and footer, with less than 16 bytes to spare |
| HeapFacts.MappingFits | src/heap.c:93-105 | what realloc takes a mapping to hold covers the request it was made for if and only if the request modulo 4096 is not one of 4081 to 4088 |
| HeapFacts.MappingMoveExact | src/heap.c:151-161 | a mapping for sz bytes moved to newSz bytes keeps the first min(sz, newSz) of them whatever memory holds, if and only if newSz does not exceed what is copied or sz modulo 4096 is not one of 4081 to 4088 |
| HeapFacts.MappingLoses | src/heap.c:151-161 | for 135153 bytes: 135168 are mapped, 135152 copied, and in any larger new block the last byte is lost if that memory held another one |
| HeapFacts.SmallOutcome | src/heap.c:109-114 | one brk allocation, repaired or as written, changes no payload byte and no mapping's header, and hands out bytes of the one payload that was added |
| HeapFacts.ResultBlock | src/heap.c:288-309 | the address answered lies in the block the list allocator adds, at its start if repaired or safe |
| HeapFacts.LargeOutcome | src/heap.c:93-107 | what one new mapping means for the heap, the other mappings and all payload bytes |
| HeapFacts.ReleaseKept | src/heap.c:314-388 | a release, repaired or as written, changes no byte of a payload that is live before it, and no mapping's header |
| HeapFacts.PayloadWritten | src/heap.c:142 | writing inside one payload changes no tag of the heap and no mapping's header |
| HeapFacts.MovedOutcome | src/heap.c:155-172 | allocate, copy and free together keep the copied bytes and every other live byte |
| Session.Run | src/heap.c:88-173 | over every list of malloc, calloc, realloc, free and byte stores by a client, repaired or as written and whatever the kernel grants: it comes to the end with a valid allocator if and only if repaired or every call is safe, else it stops right behind the first unsafe one; block list, mappings and record follow from calls and replies; NULL is answered to malloc and calloc if and only if nothing or too much was asked for, or no block fits and the kernel refused the growth or mapping needed, and to realloc of a positive size only then; at the end every byte the client stored, had zeroed or had preserved by realloc is in its block, each block is in the tier its size belongs to with exactly its own mapping, and nothing else is live |
| Session.Boot | src/heap.c:72-115 | the same from the start of a process, with an allocator made there and then |
| Session.Do | src/heap.c:88-173 | one call: the allocator stays valid if and only if repaired or the call is safe, and then the client's record stays true; a request is answered with NULL only where it has to be |
| Session.TestIsSafe | src/heap.c:88-173 | whether a call as written is safe can be told from the client's record, a look at the tags before the call and the reply |
| Session.DoRealloc | src/heap.c:146-173 | a mapping the client asked for with size bytes and moves to another one holds exactly its first min(mapped - 16, new) bytes there and behind them what that memory held; staying valid is an if-and-only-if, and the record stays true |
| Session.LastByte | src/heap.c:151-161 | a client that asks for 135153 bytes, stores into the last one and grows the block finds there what memory held before, not what it stored, unless the kernel refused one of the two mappings |
| Session.GoodMeans | src/heap.c:88-173 | at any such point the client's blocks share no byte, and when it holds none, no mapping is left and the heap is empty or one free block |
| Session.MovesRight | src/heap.c:155-172 | a block moved by realloc, between any two tiers, keeps the record true: the preserved bytes at the new address, every other block untouched, the old mapping gone |
| Str.Memcpy | src/string.c:26-35 | for ranges that do not overlap the destination holds the source's bytes and nothing else changes, byte by byte |
| Str.Memmove | src/string.c:44-62 | the same for every overlap of the two ranges, in both directions |
| Str.Memset | src/string.c:67-76 | each byte of the range is the argument modulo 256 and every other byte is unchanged |
| Str.ForwardExact | src/string.c:31-33 | a forward copy is right for every memory if and only if the destination does not start strictly inside the source |
| CString.Strlen | src/string.c:13-21 | the number of characters in front of the first NUL |
| Digits.NumeralRoundTrip | src/stdio.c:95-139 | reading a numeral back gives the value, in both bases |
| Digits.NoLeadingZero | src/stdio.c:97-103 | no numeral of a positive value starts with a zero |
| Digits.NumeralShape | src/stdio.c:95-139 | a numeral is one or more of the digits 0 to 9, a to f of its base, and starts with 0 only for the value 0, where it is "0" |
| Digits.NumeralUnique | src/stdio.c:95-139 | it is the only text of that form that is read as the value |
| Digits.NumeralLength | src/stdio.c:168-184 | 64-bit values take at most 20 decimal or 16 hexadecimal digits, so the callers' 32-byte buffers suffice |
| Digits.SignedRoundTrip | src/stdio.c:112-121 | the same for signed values with the most negative one, in at most 20 characters, with a minus sign exactly for the negative ones and no leading zero |
| Digits.SignedShape | src/stdio.c:112-121 | a signed numeral starts with a minus sign if and only if the value is negative; behind it are one or more decimal digits, of which the first is 0 only for the value 0, and then the numeral is "0" |
| Digits.SignedUnique | src/stdio.c:112-121 | it is the only text of that form that is read as the value |
| Digits.StrReverse | src/stdio.c:79-89 | the range is reversed in place and nothing else changes |
| Digits.Utoa | src/stdio.c:95-106 | the buffer holds the decimal numeral and a NUL, nothing else changes, the length is returned; what the buffer holds is digits without a leading zero and is read back as the value |
| Digits.Xtoa | src/stdio.c:127-139 | the same in base 16 |
| Digits.Itoa | src/stdio.c:112-121 | the same with a sign, for every 64-bit value, the negation never leaving the signed 64-bit range; a minus sign is in the buffer if and only if the value is negative |
| Printf.RenderWhole | src/stdio.c:187-196 | because of the cast to int, texts are printed whole if and only if all are shorter than 2^31 |
| Printf.RenderOne | src/stdio.c:165-211 | a format of one conversion prints its argument: for d, i, u and x a numeral that is read back as it in base 10 or 16, for p "0x" and a base-16 numeral, for c the one character of its low byte, for s the text itself if shorter than 2^31 (else a proper part of it) or "(null)" |
| Printf.RenderOther | src/stdio.c:212-221 | "%%" prints one percent sign, a percent sign before any other character prints both, and one at the end of the format prints nothing |
| Printf.RenderPlain | src/stdio.c:155-159 | a format without a percent sign prints itself |
| Printf.RenderJoin | src/stdio.c:154-224 | formats one behind the other print their outputs one behind the other, the second one reading on in the arguments, unless the first ends in the middle of a conversion |
| Printf.ChunksPartition | src/stdio.c:61-68 | the chunks join to the text, all but the last are 2047 long, there are ceil(length / 2047) of them |
| Printf.ChunksOf | src/stdio.c:61-68 | full pieces and a non-empty rest are the chunks of their text, whatever the pieces |
| Printf.ResultIsLength | src/stdio.c:50-59 | the sum of the positive results never exceeds the length and reaches it if and only if every write took all |
| Printf.Context.Putc | src/stdio.c:62-68 | one more character is put; the index stays in bounds and only full chunks were written |
| Printf.Context.Puts | src/stdio.c:71-76 | the first len characters are put, none for a negative len |
| Printf.Context.Flush | src/stdio.c:50-59 | a non-empty buffer is written once and emptied; positive results are added up as long as the sum fits an int |
| Printf.Context.PutArg | src/stdio.c:165-211 | each conversion puts the text the renderer gives for it: a numeral that is read back as the argument, the character of its low byte, or the text |
| Printf.Printf | src/stdio.c:144-232 | for every matching format and argument list and every behaviour of write: the writes are the chunks of the rendered text, and the result is the sum of the positive answers as long as that fits an int, so the length of the text if every write took all and it fits |
| ParseLine.QuotingRoundTrip | examples/shell.c:102-137 | any non-empty list of texts without a quote, quoted and joined by spaces, is split back into itself |
| ParseLine.QuotedLine | examples/shell.c:102-137 | for 1 to 63 such texts without NUL the quoted line, ended by a NUL, is a string that splits into exactly these, within the 63-argument bound |
| ParseLine.ParseQuoted | examples/shell.c:102-137 | for 1 to 63 such texts without NUL, parse_line on a buffer with the quoted line and a NUL gives exactly these arguments, in place, closed by NULL |
| ParseLine.SplitRange | examples/shell.c:102-137 | a list is what some line splits into if and only if it is non-empty and has no quote character |
| ParseLine.TokensConserve | examples/shell.c:110-132 | the tokens in order are the line without its quotes and unquoted spaces |
| ParseLine.TokensAvoid | examples/shell.c:111-132 | no token has a quote, or a character the line does not have |
| ParseLine.LeadingSpace | examples/shell.c:108-127 | a leading space gives an empty first argument |
| ParseLine.SplitWords | examples/shell.c:108-132 | a word without quote or space is one argument, however many spaces follow it, and the rest behind them is split by itself; spaces at the end add nothing |
| ParseLine.TokenAt | examples/shell.c:117-135 | in the finished buffer each token is a NUL-terminated string at its recorded offset |
| ParseLine.StepSpace | examples/shell.c:117-127 | the step that ends a token keeps layout, unread rest, recorded offsets and the 63-argument bound |
| ParseLine.ParseLine | examples/shell.c:102-137 | in place, the vector of 64 holds exactly the first 63 tokens, closed by NULL; nothing behind the line changes |

## Left out

- Heap.Allocator.Malloc: requests above 2^64 - 4104 are excluded; Bits.MmapTotalExact shows that this is exactly where the mapped length wraps. The same bound is on the sizes given to calloc and realloc.
- Heap.Allocator.Free: double frees, frees of foreign pointers and client writes outside a payload are excluded.
- Heap.Allocator.Realloc: for a mapping the preserved length is bounded by size - 16, as the code computes it, although the mapping holds 8 more.
- KernelModel.Kernel.Mmap: failure is answered with the -1 that `src/heap.c:102` tests for. The wrapper in `src/syscall.c:144-162` hands back the system call's raw result, which its own comment gives as -errno; with a result like -12 that test would miss the failure.
- KernelModel.Kernel.Munmap: only whole mappings; mappings made by the program itself are not modelled beyond the kernel's freedom to refuse.
- HeapRuns.RunKeeps: runs are over the words of the brk heap, with request sizes already rounded, and a store may put any number at any payload address, which is more than a client can do; Session.Run has the public calls of both tiers and byte stores.
- Printf.Printf: `va_list` is a typed argument list; once the sum of the answers no longer fits an `int` the addition overflows and the result is left undefined.
- Printf.Context.PutArg: `utoa` and `xtoa` share one loop in the model, parameterised by the base.
- Str.Memcpy: pointers are indices into one array, so reads of unrelated objects are not modelled; the same holds for memmove and memset.
- Concurrency: the allocator has no thread safety and none is modelled.
- System call wrappers, start-up code, the rest of the shell, the other string routines and `puts` are plumbing around the parts above and are not modelled.
