# A verified model of the UDOS kernel's storage, shell and scheduling logic

UDOS is a small kernel for the S/390 with its own C library and a shell, JDA. The modules here restate
its state-changing code in Dafny, in the form the source has (loops over arrays, descriptors rewritten
in place, cursors that rotate), and prove what that code keeps over every call, every run or every input.

| module | source | what it holds |
|---|---|---|
| `StorageLayout`, `StorageSafety` | kernel/real.cxx | the allocator as functions on the sequence of extents a region is tiled with; safety of every call and every run |
| `StorageRuns` | kernel/real.cxx | runs on a table of several regions |
| `RealStorage`, `RealStorageTable` | kernel/real.cxx | the descriptor table inside a region, its `next` chain, and the methods that walk and rewrite it, proved against `StorageLayout` |
| `JdaTokens`, `JdaLexer`, `JdaRpn`, `JdaTree`, `JdaEval`, `JdaAssign`, `JdaPipeline` | sys/jda/jda.cxx | tokens, expression trees and their meaning, and the passes over a line as functions |
| `JdaContext` | sys/jda/jda.cxx, sys/jda/context.hxx | the passes as methods that rewrite the token array of a context |
| `JdaSession` | sys/jda/jda.cxx | the loop over the lines of a session, and what whole sessions come to |
| `JdaCharacters`, `JdaLines` | sys/jda/jda.cxx | what single characters, numbers, lines, calls and names come to, in codes and numbers |
| `Timeshare` | kernel/timeshr.cxx | the round-robin scheduler and its three nested cursors |
| `PageTables`, `VirtualStorage` | kernel/s390/virtual.cxx | two-level tables refining a flat map of pages |
| `Dasd`, `Zdsfs` | kernel/s390/dasd.cxx, kernel/zdsfs.cxx | reading a whole dataset through read failures |
| `VirtualPaths`, `VirtualDisk` | kernel/vdisk.cxx, kernel/storage.hxx | path resolution, node creation |
| `CipherChunks`, `Blowfish`, `Xtea` | kernel/crypto.cxx | the two block ciphers over byte buffers |
| `LibioConvert`, `LibioDigits`, `CharacterTypes` | sys/libio/stdlib.cxx, sys/libio/ctype.cxx | printing and parsing integers, as a whole and digit by digit |
| `Sequences`, `Wrappers`, `NatArithmetic` | | shared helpers |

Wherever a property that the code is meant to have is false of it, a lemma states exactly when it holds;
some have a lemma with a concrete input beside them.

## What the code does where one would expect otherwise

- `region::create` makes a sound region exactly from 8192 bytes on: a smaller one gets a table with room
  for `heap[0]` only and writes `heap[1]` outside of it.
- The fit test of `alloc` adds `current_ptr % align`; the slack an aligned object needs is the distance to
  the next multiple. The test is sound exactly when the remainder is 0 or at least half of the alignment,
  and complete exactly when it is 0 or at most half. `left_size` wraps when the block has no aligned slot;
  a first call on a new region may so be handed the descriptor table.
- `block::create` may return nullptr: the left split then follows a null pointer, the right split cuts the
  rest of the chain off. Growing the table takes bytes from `heap[1]`, even while `heap[1]` is being
  handed out; the object then sits under the new descriptors. A first call may do that, too.
- The forward loop of `block::merge` steps on to the next block without looking at its flag, so a used
  block may take over a free one behind it. A live block may grow; it never moves or shrinks.
- `free` of an address in the descriptor table frees the table.
- The JDA shell's operators have equal precedence and group to the right. A grouping parenthesis pushes
  an argument count that is never popped: `F(1, (2))` becomes a call with one argument. A right
  parenthesis with no operator waiting makes the conversion read in front of its stack.
- In the shell the name of a routine without parentheses, such as `LOGOUT`, runs the routine and then copies
  from a null pointer; a call of something that is no routine follows one. As long as routines leave the names
  alone, a line that reports no error does this exactly when its tree holds such a name or call.
- `x = e` binds the value of `e` only when the routines called in `e` leave nothing else on the object stack.
  Assigning to a known name leaves its old object with a pointer to a name that was released. `jda_parse`
  returns 0 also after an error.
- A line that cannot be read leaves what was read of it in front of the next line: `( 1` and then `2` come to two
  values. A line is read as its own expression exactly when nothing but parentheses and commas, well nested, was
  left in front of it.
- Removing a task or a thread leaves the cursor where it was or puts it at the start. The list then goes on with the
  element that was to come next exactly when the removed one lies behind that, or was the current one of two;
  otherwise an element is passed over, as when the task that faulted is removed.
- `isxdigit` of the C library turns its letter to lower case and compares it with upper-case letters, so
  hexadecimal digits above 9 are never read. `atoi` weights the digits behind `0x` by ten.
- `virtual_to_real` does not look at the invalid bit of a page entry. Origins are masked with 32 bits, so a
  frame comes back exactly when it lies below 4 GiB, and a page table is found again exactly when it does.
  Address 0 from `phys2virt` may be a match or none. `map_range` does not look at the errors of `map_page`.
- `read_file` stops at a record of no bytes. Without one it reads on into what lies behind the dataset. As record
  numbers are cut to 8 bits and one missing number is skipped, it reads a track round and round, for ever, when
  each of the 256 numbers has a non-empty record or is missing in front of one that is there: 128 records may
  be enough. With track and cylinder numbers below 65535 it ends from every location exactly when no track of
  the extent is like that.
- `storage::compare` adds up the differences of the characters: two names of one length and one sum are
  the same name to path resolution, and the older node hides the newer.
- `node::create` takes names with separators in them and cuts names to 24 characters. A node is found by the
  name it was created with exactly when that has 1 to 24 characters and no separator, or 25 of which only the
  last is one, and no older sibling compares equal. The terminator of a name of 24 or more characters is
  written behind the name's 24 bytes.
- `libio_ulltoa` keeps digits in 24 characters, enough for every 64-bit value exactly from base 7 on; from
  base 202 on a digit may come out as a zero byte.

## Model

| member | source | states |
|---|---|---|
| StorageLayout.CreateWellFormedExactly | kernel/real.cxx:152-182 | a new region has a table that holds its two descriptors and extents that tile it if and only if it has at least 8192 bytes |
| StorageLayout.CreatedInNumbers | kernel/real.cxx:168-181 | the table has 24 bytes for every 8192 bytes of the region and once more, and the rest is free |
| StorageLayout.SlotSlack | kernel/real.cxx:293-302 | a block has an aligned slot for the object if and only if it has room for the object and the distance to the next multiple of the alignment |
| StorageLayout.FitTestSoundExactly | kernel/real.cxx:293-296 | the test accepts no block without an aligned slot, for any size, if and only if the address is aligned or in the upper half of its unit |
| StorageLayout.FitTestCompleteExactly | kernel/real.cxx:293-296 | the test rejects no block with an aligned slot, for any size, if and only if the address is aligned or in the lower half of its unit |
| StorageLayout.FitsUnaligned | kernel/real.cxx:293-296 | without an alignment the test accepts exactly the free blocks that are large enough |
| StorageLayout.LeftSizeInNumbers | kernel/real.cxx:293-302 | the left size is the distance to the object, or that distance wrapped at 2 to the 64 when the object would start in front of its block |
| StorageLayout.FirstFit | kernel/real.cxx:280-342 | the walk stops at a block that passes the test and every block before it fails |
| StorageLayout.Claim | kernel/real.cxx:201-229 | finding a descriptor changes the extents of the table and of heap[1] only |
| StorageLayout.ClaimInNumbers | kernel/real.cxx:201-229 | a descriptor is found when the table has 24 bytes more, or when heap[1] is not used and has 768 bytes to give away |
| StorageLayout.Locate | kernel/real.cxx:368-400 | the walk of free stops at the block that holds the byte, and no block before it does |
| StorageSafety.PlaceAtShape | kernel/real.cxx:298-338 | a safe allocation turns its block into a free left part, the used object and a free right part, and returns the address of the object |
| StorageSafety.PlacedTotal | kernel/real.cxx:310-331 | splitting and growing the table keep the sum of the sizes |
| StorageSafety.PlacedKeepsUsed | kernel/real.cxx:217-331 | every used block behind the table keeps its address and its size through splits and growth |
| StorageSafety.PlacedObject | kernel/real.cxx:310-338 | the object starts left bytes into its block, even when the table grew in between |
| StorageSafety.PlacedNoAdjacentFree | kernel/real.cxx:310-333 | a safe allocation leaves no two free neighbours |
| StorageSafety.WithoutSlotBreaks | kernel/real.cxx:299-328 | without an aligned slot the wrapped left size makes the code fault or the blocks exceed the region |
| StorageSafety.NoDescriptorBreaks | kernel/real.cxx:310-330 | without descriptors the code faults or loses blocks, unless the table grew under the object |
| StorageSafety.SafeAllocKeeps | kernel/real.cxx:266-350 | a safe alloc keeps the region invariant: tiling, no adjacent free blocks, every live allocation served by a used block |
| StorageSafety.GrowthUnderObject | kernel/real.cxx:214-219 | when heap[1] is handed out with nothing left in front and the table grows, the new table covers the object |
| StorageSafety.AllocKeepsExactly | kernel/real.cxx:266-350 | alloc keeps the invariant if and only if the chosen block has an aligned slot and enough descriptors are empty or heap[1] can pay for them |
| StorageSafety.FirstAllocReturnsTable | kernel/real.cxx:293-338 | a reachable failure: on a new region of 8192 bytes at a page boundary a first alloc of 5000 bytes aligned to 4096 returns the address of the descriptor table |
| StorageSafety.FirstAllocUnderTable | kernel/real.cxx:214-223 | a reachable failure: on such a region a first alloc of 8136 bytes aligned to 16 is served where the growing table then lies |
| StorageSafety.AllocNullExactly | kernel/real.cxx:278-349 | alloc returns null if and only if the request is larger than the region or every block fails the test |
| StorageSafety.AllocHighestAligned | kernel/real.cxx:298-308 | a safe allocation lies in the first block that passes, at the highest aligned address that fits, with less than one alignment unit behind it |
| StorageSafety.MergeNoAdjacentFree | kernel/real.cxx:238-260 | after free and merge no two neighbours are free |
| StorageSafety.MergeTotal | kernel/real.cxx:238-260 | merging keeps the sum of the sizes |
| StorageSafety.AbsorbKeepsUsed | kernel/real.cxx:252-258 | the forward loop keeps the address of every used block and never makes it smaller |
| StorageSafety.MergeKeepsUsed | kernel/real.cxx:238-260 | the whole merge keeps the address of every other used block and never makes it smaller |
| StorageSafety.FreeKeepsExactly | kernel/real.cxx:354-406 | free of any address keeps the invariant if and only if the address is not in the descriptor table |
| StorageSafety.HoldsByteExactly | kernel/real.cxx:363-391 | free finds a block for an address if and only if the address lies in the region |
| StorageSafety.DoubleFreeIsHarmless | kernel/real.cxx:377-389 | freeing a byte of a free block changes nothing |
| StorageSafety.LiveAllocationsApart | kernel/real.cxx:266-406 | live allocations lie in the region, outside of the table and apart from each other |
| StorageSafety.NewAllocationApart | kernel/real.cxx:266-350 | what a safe alloc returns lies apart from every live allocation |
| StorageSafety.RunsKeepInvariant | kernel/real.cxx:266-406 | the invariant holds after every run of safe allocs and of frees outside of the table |
| StorageSafety.LiveUntilFreed | kernel/real.cxx:266-406 | over such a run a live allocation keeps its address and at least its requested extent until its block is freed |
| StorageSafety.FreeUndoesAllocExactly | kernel/real.cxx:266-406 | freeing what was just allocated restores the extents, table growth aside, if and only if nothing is left behind the object or the block after the next is used or absent |
| StorageSafety.FreeCoalescesExactly | kernel/real.cxx:238-260 | any free of a used block makes one free block of it and its free neighbours, and changes nothing else, if and only if the block behind it is used or absent, or the third block behind it is used or absent |
| StorageRuns.CallKeepsInvariant | kernel/real.cxx:152-406 | creating a region apart from the others, a safe alloc and a free outside of the tables keep every region's invariant and the regions apart |
| StorageRuns.RunLiveApart | kernel/real.cxx:152-406 | over every such run from an empty table of regions, two live allocations never overlap, in one region or in two |
| StorageRuns.RunKeepsLive | kernel/real.cxx:152-406 | over every such run a live allocation keeps its region, address and requested size until its own block is freed |
| RealStorage.EmptyExactly | kernel/real.cxx:206-212 | the table has an empty descriptor if and only if the chain is shorter than the table |
| RealStorage.DistinctBelow | kernel/real.cxx:206-212 | a chain without repeats is no longer than the table, and shorter when it misses a descriptor |
| RealStorage.GrownTable | kernel/real.cxx:214-223 | growing keeps the chain and moves 768 bytes from heap[1] to the table |
| RealStorage.GrownInNumbers | kernel/real.cxx:214-223 | growing adds 32 empty descriptors and changes no other |
| RealStorage.InsertedLinked | kernel/real.cxx:224-228 | a filled empty descriptor becomes the successor: the chain and the extents have one more element at that place |
| RealStorage.InsertedTabled | kernel/real.cxx:224-228 | heap[0] stays first and heap[1] second, and every present descriptor stays on the chain |
| RealStorage.CutBehind | kernel/real.cxx:315-329 | storing nullptr as a successor drops all extents behind it |
| RealStorage.TakenChained | kernel/real.cxx:243-258 | taking over the successor leaves a chain that visits every present descriptor once |
| RealStorage.Region.Create | kernel/real.cxx:162-181 | the state of a new region, which satisfies the class invariant if and only if it has at least 8192 bytes |
| RealStorage.Region.BlockCreate | kernel/real.cxx:201-229 | the first empty descriptor is filled, else the table grows, else null and nothing changed |
| RealStorage.Region.CreateAfter | kernel/real.cxx:315-329 | inserting behind a block, or cutting the chain when no descriptor is left |
| RealStorage.Region.FindBlock | kernel/real.cxx:280-342 | the walk finds the first block that passes the test, and its address |
| RealStorage.Region.LeftOf | kernel/real.cxx:298-308 | the left size in wrapping arithmetic |
| RealStorage.Region.TakeLeft | kernel/real.cxx:310-319 | the left split, or a null successor |
| RealStorage.Region.TakeRight | kernel/real.cxx:325-333 | the right split, which cuts the chain when no descriptor is left |
| RealStorage.Region.Take | kernel/real.cxx:310-338 | both splits together and the returned address, or a fault |
| RealStorage.Region.Alloc | kernel/real.cxx:266-350 | the new extents, live map and result are exactly those of the specification; a null result changes nothing; a safe call keeps the class invariant |
| RealStorage.Region.TakeOver | kernel/real.cxx:243-256 | a block takes over its successor, whose descriptor becomes empty |
| RealStorage.Region.AbsorbNext | kernel/real.cxx:253-258 | one turn of the forward loop, with the step on to the next block whatever its flag |
| RealStorage.Region.Absorbing | kernel/real.cxx:252-258 | the whole forward loop |
| RealStorage.Region.BlockMerge | kernel/real.cxx:238-260 | merging backwards and forwards gives the specified extents and keeps the chain |
| RealStorage.Region.FindByte | kernel/real.cxx:368-400 | the walk finds the block that holds the byte and the block in front of it |
| RealStorage.Region.Free | kernel/real.cxx:354-406 | the new state is the specified one; the class invariant is kept if and only if the address is not in the table |
| RealStorageTable.FreePlusUsed | kernel/real.cxx:541-553 | free and used bytes of a chain add up to its total |
| RealStorageTable.AllocMovesBytes | kernel/real.cxx:541-553 | a safe allocation moves the bytes of the object from the free to the used ones, and 768 when the table grew |
| RealStorageTable.Table.EightRegions | kernel/real.cxx:156-186 | the table has eight slots |
| RealStorageTable.Table.Create | kernel/real.cxx:152-186 | the first slot not in use becomes the region and the other states stay; none means that every slot is in use |
| RealStorageTable.Table.Alloc | kernel/real.cxx:266-350 | the first public region with a block that passes serves the request and no other region changes; null means none has such a block; an allowed call is one step of the runs above |
| RealStorageTable.Table.Free | kernel/real.cxx:354-406 | the first public region with a block that holds the address frees it and no other region changes; an allowed call is one step of the runs above |
| RealStorageTable.Table.GetStats | kernel/real.cxx:532-556 | free and used bytes are those of the blocks and add up to the sizes of the public regions |
| JdaLexer.SkipStringThrough | sys/jda/jda.cxx:267-285 | the loop over a string literal ends at its closing quote, whatever comes behind |
| JdaLexer.PlainTextQuotable | sys/jda/jda.cxx:267-285 | a text without quotes, backslashes and zero bytes can stand between quotes |
| JdaLexer.ScanText | sys/jda/jda.cxx:107-357 | the printed form of a token, numbers and strings included, is scanned as that token, up to the blank behind it |
| JdaLexer.LexOfPrint | sys/jda/jda.cxx:94-368 | lexing the printing of any well-formed token list gives the list back, functions and strings included |
| JdaLexer.LexBehind | sys/jda/jda.cxx:94-368 | behind tokens that are there already the list comes behind them, and a name at their end becomes a function when a left parenthesis follows |
| JdaCharacters.NumbersScanned | sys/jda/jda.cxx:200-245 | digits, and digits with a point and digits behind it, are one number to their end; a second point is an error unless it comes right behind the first |
| JdaCharacters.NumberLine | sys/jda/jda.cxx:200-266 | such a line is one number token, read from all its characters, or an error |
| JdaCharacters.HexadecimalLine | sys/jda/jda.cxx:211-228 | behind 0x decimal digits are taken along, and no letter |
| JdaCharacters.NameLine | sys/jda/jda.cxx:331-350 | letters, digits and underscores are one name unless a digit comes first |
| JdaCharacters.StringLine | sys/jda/jda.cxx:267-298 | a plain text between quotes, or from a quote to the end of the line, is one string; an empty one is an error |
| JdaCharacters.QuoteInString | sys/jda/jda.cxx:273-282 | a backslash behind at least one character makes a quote part of the string |
| JdaCharacters.SymbolLines | sys/jda/jda.cxx:110-190 | the token of each of the fifteen symbols |
| JdaCharacters.OtherCharacter | sys/jda/jda.cxx:351-354 | every other character but letters, digits, underscores, quotes and blanks is an error |
| JdaCharacters.LexShift | sys/jda/jda.cxx:94-368 | a character in front of a line shifts the positions and changes no token |
| JdaCharacters.BlankBefore | sys/jda/jda.cxx:191-199 | nor does a blank, tab or line end in front, unless a vertical tab or form feed follows |
| JdaCharacters.VerticalTab | sys/jda/jda.cxx:191-199 | behind a blank a vertical tab or form feed is skipped like one |
| JdaCharacters.ZeroEndsLine | sys/jda/jda.cxx:107 | a zero byte ends the line |
| JdaRpn.ParenTop | sys/jda/jda.cxx:425-454 | popping stops at the topmost left parenthesis |
| JdaRpn.StepSound | sys/jda/jda.cxx:389-491 | a step loses no token, keeps a count for every waiting parenthesis, and goes through if and only if it is not a comma or right parenthesis outside of all parentheses |
| JdaRpn.StepFaults | sys/jda/jda.cxx:389-491 | the only step that reads outside of the stack is a right parenthesis on an empty one |
| JdaRpn.StepWaits | sys/jda/jda.cxx:389-491 | how a step changes the depth and the functions that wait in front of the first open parenthesis |
| JdaRpn.ConvertPermutes | sys/jda/jda.cxx:389-502 | a successful conversion of any token list yields a permutation of its tokens without parentheses and commas |
| JdaRpn.ConvertSucceedsExactly | sys/jda/jda.cxx:370-543 | the conversion succeeds if and only if parentheses are balanced, commas stand inside them and some other token is there |
| JdaRpn.FeedBlank | sys/jda/jda.cxx:389-491 | well-nested parentheses and commas leave no output and no operator |
| JdaRpn.LooseConverts | sys/jda/jda.cxx:389-502 | without parentheses, commas and functions, numbers, names, strings, assignments, points and colons are output in order and everything else behind them in reverse |
| JdaRpn.PointIsNoArgument | sys/jda/jda.cxx:398-406 | a point or colon alone in an argument list counts as no argument, a name as one |
| JdaRpn.ConvertCrashesExactly | sys/jda/jda.cxx:441-451 | the conversion of any token list reads in front of its operator stack if and only if some right parenthesis comes while nothing waits, as a scan of depth and waiting functions tells |
| JdaTree.Read | sys/jda/jda.cxx:389-491 | the stacks and the output after reading any written tree, from any state |
| JdaTree.ReadGroup | sys/jda/jda.cxx:435-468 | the same for a parenthesised group |
| JdaTree.ReadCall | sys/jda/jda.cxx:407-464 | the same for a call: its arguments, then the function with the count on top of the stack of counts |
| JdaTree.ConvertTree | sys/jda/jda.cxx:370-543 | every written tree converts to its right-grouping postfix form, with the argument counts the code arrives at |
| JdaTree.CountOf | sys/jda/jda.cxx:399-464 | reading an expression whose calls are right touches the count on top and leaves one count for each group that no call took |
| JdaTree.ExtrasOf | sys/jda/jda.cxx:435-464 | the counts left behind are at most 1, and there are none if and only if there is no group |
| JdaTree.ConvertToPostfix | sys/jda/jda.cxx:370-543 | in particular this holds for groups outside of argument lists |
| JdaTree.CountWithGroups | sys/jda/jda.cxx:413-464 | with groups behind the first argument the count is what the last argument with a group left on top plus the commas behind it |
| JdaTree.CallCountExactly | sys/jda/jda.cxx:413-464 | a call whose arguments are right gets its number of arguments if and only if no argument after the first has a group and the first leaves a 1 on top |
| JdaTree.ConvertToPostfixExactly | sys/jda/jda.cxx:370-543 | every written tree converts to its right-grouping postfix form with the right argument counts if and only if every call in it is right in that sense, at whatever depth |
| JdaTree.ConvertBehindExactly | sys/jda/jda.cxx:370-543 | behind other tokens a tree whose calls are right converts to its postfix form if and only if those are well-nested parentheses and commas |
| JdaTree.GroupedSecondArgumentIsLost | sys/jda/jda.cxx:413-464 | a call with the arguments 1 and (2) is converted to a call with one argument |
| JdaEval.RunOperand | sys/jda/jda.cxx:558-733 | running the postfix form of an operand puts its meaning on top of any stack, or fails when there is none |
| JdaEval.Run | sys/jda/jda.cxx:558-733 | the same for any expression |
| JdaEval.EvalOfPostfix | sys/jda/jda.cxx:558-733 | the postfix form of a tree evaluates to exactly one token, its meaning, and is refused or runs wild if and only if its meaning is |
| JdaEval.SafeSame | sys/jda/jda.cxx:566-597 | whether a tree is safe (no plain name stands for a routine, and every called name that stands for something does) depends only on which names stand for routines |
| JdaEval.RunsWildExactly | sys/jda/jda.cxx:558-733 | with routines that keep which names stand for routines and push none, a safe tree never follows a null pointer and only a safe one has a value; so an evaluation that reports no error follows one if and only if the tree is not safe |
| JdaEval.ArithmeticFailsExactly | sys/jda/jda.cxx:655-724 | on numbers and operators evaluation fails if and only if an operator lacks an operand |
| JdaContext.Context.PushToken | sys/jda/token.cxx:37-47 | the token array grows by the token |
| JdaContext.Context.PushLexed | sys/jda/jda.cxx:111-120 | the array grows by the token, and an identifier in front of a left parenthesis becomes a function |
| JdaContext.Context.LexLine | sys/jda/jda.cxx:94-368 | the tokens after lexing are those of the specification, also after an error, and a comment changes nothing |
| JdaContext.Context.PopToParen | sys/jda/jda.cxx:425-451 | the operators behind the topmost left parenthesis go to the output in reverse |
| JdaContext.Context.ShuntOne | sys/jda/jda.cxx:389-491 | one turn of the conversion loop is one step of the specification |
| JdaContext.Context.PopRest | sys/jda/jda.cxx:493-502 | the rest of the operators go to the output down to a lone left parenthesis |
| JdaContext.Context.TakeOutputs | sys/jda/jda.cxx:523-542 | the output becomes the token array, and none at all is an error |
| JdaContext.Context.LexerToRpn | sys/jda/jda.cxx:370-543 | tokens, return code and failure count are those of the specified conversion |
| JdaContext.Context.CloseGap | sys/jda/jda.cxx:640-644 | the memmove removes exactly the n tokens in front of i |
| JdaContext.Context.EvalOperator | sys/jda/jda.cxx:655-724 | an operator and its operands become the result in place, or an error if and only if an operand is missing or no number |
| JdaContext.Context.EvalFunction | sys/jda/jda.cxx:590-654 | a function and its arguments become what the routine left, with whatever it did to the objects of the context; an error or a call through a null pointer exactly in the specified cases |
| JdaContext.Context.EvalIdent | sys/jda/jda.cxx:566-589 | a name becomes its object's token, stays in front of an assignment, or is an error; a routine is run first, with whatever it does to the objects, and the copy of its token is one from a null pointer unless its name then stands for something else |
| JdaContext.Context.EvalAt | sys/jda/jda.cxx:560-733 | a turn keeps what the stack machine computes, and operators left plus tokens left decrease |
| JdaContext.Context.Evaluate | sys/jda/jda.cxx:558-733 | the in-place evaluator computes what the stack machine computes, and fails if and only if it does |
| JdaAssign.AssignOne | sys/jda/jda.cxx:739-825 | what the assignment pass does behind a line name = expression, for any value and any object stack |
| JdaAssign.NoAssignment | sys/jda/jda.cxx:739-825 | without an assignment among the tokens the pass changes no name |
| JdaContext.Context.AssignAt | sys/jda/jda.cxx:752-817 | an assignment takes the object on top of the stack, or else the next token, and adds it under the name; an error without a name in front or a value; a known name leaves a released one behind |
| JdaContext.Context.Assignments | sys/jda/jda.cxx:739-825 | the loop carries out the assignments as specified, and keeps those in front of an error |
| JdaContext.Context.ParseTokens | sys/jda/jda.cxx:545-884 | evaluation and assignments as specified; afterwards there are no tokens and no objects on the stack, and the names those that both steps left, also in front of an error; the result is 0 |
| JdaContext.Context.RunLine | sys/jda/jda.cxx:94-884 | lexing, conversion, evaluation and assignments in sequence: return code, tokens left, names and failure state in every case |
| JdaPipeline.Written | sys/jda/jda.cxx:94-368 | the tokens of a tree whose names and numbers can be spelled can be lexed back |
| JdaPipeline.ReadBehindExactly | sys/jda/jda.cxx:94-543 | a line that spells a tree whose calls are all right is read as its postfix form if and only if well-nested parentheses and commas, or nothing, were left in front of it |
| JdaPipeline.CallOfText | sys/jda/jda.cxx:94-543 | a line such as PRINT ( "Hello" ) is read as a call with one string |
| JdaPipeline.OpenParenthesisStays | sys/jda/jda.cxx:493-542 | after the line ( a the line b has two values |
| JdaPipeline.LineOfTree | sys/jda/jda.cxx:94-733 | such a line evaluates to one token, the tree's meaning, and is an error if and only if the meaning is |
| JdaPipeline.LineRunsWildExactly | sys/jda/jda.cxx:94-733 | such a line that reports no error follows a null pointer if and only if its tree is not safe |
| JdaPipeline.PlainNameRunsWild | sys/jda/jda.cxx:581-587 | the name of a routine alone on a line does |
| JdaPipeline.LogoutRunsWild | sys/jda/jda.cxx:581-587 | for instance LOGOUT |
| JdaPipeline.CallOfValueRunsWild | sys/jda/jda.cxx:595-625 | and so does a call of a name that stands for something else |
| JdaPipeline.LineOfAssignment | sys/jda/jda.cxx:94-884 | what a line name = expression does, for every expression whose calls are right: an error, a null pointer or released name, or the name bound to what is on top of the object stack or else to the value |
| JdaPipeline.AssignsValueExactly | sys/jda/jda.cxx:94-884 | such a line binds the name to the value of the expression if and only if the name is new and no other object is left on top of the stack |
| JdaPipeline.AssignedReadsBack | sys/jda/jda.cxx:94-733 | a line with the name alone then has that value |
| JdaLines.OperatorLines | sys/jda/jda.cxx:655-724 | each operator character of a line stands for its own operation, with the operand in front on the left; division and remainder by or of zero give zero; the imaginary part is 0 and the power 1 |
| JdaLines.OperationsTakenBack | sys/jda/jda.cxx:678-711 | in exact arithmetic ( a + b ) - b, ( a - b ) + b and, for nonzero numbers, ( a / b ) * b are a |
| JdaLines.OperatorsGroupRight | sys/jda/jda.cxx:370-543 | a - b - c is a - (b - c) |
| JdaLines.CallOfNumbers | sys/jda/jda.cxx:601-654 | a routine finds its arguments in order on the object stack, above what lay there; what it leaves on top is the value and is taken off; any other number of results than 0 or 1 is an error |
| JdaLines.CallOfNoRoutine | sys/jda/jda.cxx:595-625 | a call of an unknown name is an error, of a known one that is no routine a null pointer |
| JdaLines.TooFewValues | sys/jda/jda.cxx:602-605 | a function in front of fewer values than it takes is an error |
| JdaLines.TextIsNoOperand | sys/jda/jda.cxx:668-675 | a string on either side of an operator is an error |
| JdaLines.PlainName | sys/jda/jda.cxx:574-588 | the value of a plain name for every kind of object, a routine being run first |
| JdaLines.AssignmentOfNothing | sys/jda/jda.cxx:568-797 | a line name = with nothing behind it does not look the name up: it takes the object on top of the stack, and with an empty stack is an error |
| JdaLines.AsteriskLine | sys/jda/jda.cxx:101-104 | a line that starts with an asterisk changes nothing |
| JdaLines.IndentedLine | sys/jda/jda.cxx:191-199 | a blank, tab or line end in front of any other line does not matter |
| JdaSession.IsEmpty | sys/jda/jda.cxx:1897-1905 | a line is skipped if and only if it is all space |
| JdaSession.RunSession | sys/jda/jda.cxx:1878-1916 | the loop over any lines leaves the tokens and names of the specified session, or is lost when that is |
| JdaSession.ShownLine | sys/jda/jda.cxx:94-884 | a line with an expression, in front of which at most well-nested parentheses and commas were left, does to the names what its meaning does |
| JdaSession.SessionOfCommands | sys/jda/jda.cxx:1878-1916 | a session of any number of expressions, assignments and comments does to the names, line by line, what the meanings of the expressions do |
| JdaSession.CommandSettled | sys/jda/jda.cxx:558-817 | a line is lost only if it is not safe, stores something only if it is, and changes which names stand for routines by its assignment only |
| JdaSession.SafeSessionRuns | sys/jda/jda.cxx:1878-1916 | a session whose trees are safe for the names there and assigned so far, and that assigns to no known name, is never lost, whatever errors it reports |
| JdaSession.SessionLostExactly | sys/jda/jda.cxx:1878-1916 | a typed session in which no line reports an error is lost if and only if it is not safe in that sense |
| Timeshare.VisitApproaches | kernel/timeshr.cxx:167-214 | every turn chooses a given eligible thread or brings it exactly one turn closer |
| Timeshare.DistanceBound | kernel/timeshr.cxx:167-214 | that distance is below jobs times tasks times threads |
| Timeshare.NextReturnsExactly | kernel/timeshr.cxx:157-219 | next returns if and only if a job that does not sleep has a task with a thread |
| Timeshare.ReturnsWithinBound | kernel/timeshr.cxx:157-219 | and then within jobs times all tasks turns |
| Timeshare.NextChooses | kernel/timeshr.cxx:157-219 | what next returns is a thread of a job that does not sleep, the cursors stand on it, and the lists are unchanged |
| Timeshare.CallApproaches | kernel/timeshr.cxx:157-219 | a call returns a given eligible thread or brings it closer |
| Timeshare.NoStarvation | kernel/timeshr.cxx:157-219 | with fixed lists every thread of a job that does not sleep is returned within jobs times tasks of its job times threads of its task calls |
| Timeshare.TurnRotates | kernel/timeshr.cxx:167-214 | a turn goes to the next job, its next task and that task's next thread, each in a circle, and changes no other cursor |
| Timeshare.JobsTakeTurns | kernel/timeshr.cxx:157-219 | when no job sleeps or lacks threads, call number m serves the job m + 1 places on |
| Timeshare.OldIsLastNew | kernel/timeshr.cxx:159-163 | the old thread of a call is the new thread of the call before |
| Timeshare.RemovalKeepsNextExactly | kernel/timeshr.cxx:52-89 | after a removal a list goes on with the element that was to come next if and only if the removed one lies behind that, or was the current one of two |
| Timeshare.TurnAfterRemovedTask | kernel/timeshr.cxx:52-64 | which task of the old list the next turn of the job visits |
| Timeshare.TurnAfterRemovedThread | kernel/timeshr.cxx:75-89 | which thread of the old list the next turn of the task chooses |
| Timeshare.Table.Turn | kernel/timeshr.cxx:167-214 | one turn of the loop moves the cursors as specified |
| Timeshare.Table.Next | kernel/timeshr.cxx:157-219 | the new thread is the one the cursors now point at, the old one the one they pointed at, and valid cursors stay valid |
| Timeshare.Table.CreateJob | kernel/timeshr.cxx:25-50 | a sleeping job without tasks is appended, cursors stay valid |
| Timeshare.Table.CreateTask | kernel/timeshr.cxx:66-73 | a task is appended to its job, cursors stay valid |
| Timeshare.Table.CreateThread | kernel/timeshr.cxx:91-96 | a thread is appended to its task, cursors stay valid |
| Timeshare.Table.RemoveTask | kernel/timeshr.cxx:52-64 | the task is erased, and the cursor stays if it is below the new length and is 0 otherwise; an unknown task changes nothing |
| Timeshare.Table.RemoveThread | kernel/timeshr.cxx:75-89 | the thread is erased, and the cursor stays if it is below the new length and is 0 otherwise; an unknown thread changes nothing |
| PageTables.PageNumberParts | kernel/s390/virtual.cxx:44-45 | segment and page index are the two digits of the page number |
| PageTables.AddressOf | kernel/s390/virtual.cxx:44-45 | 12 bits of an address lie in the page, 8 select the page in its segment and 11 the segment; higher ones are not looked at |
| PageTables.BitOrBits | kernel/s390/virtual.cxx:69 | a bit of an entry is set if and only if it is in the frame address or the flags |
| PageTables.SetBitIsOr | kernel/s390/virtual.hxx:89-91 | marking an entry sets one bit and leaves all others |
| PageTables.RoundingWraps | kernel/s390/virtual.cxx:128-130 | the pages of the smallest and the largest sizes |
| PageTables.BitOrPage | kernel/s390/virtual.cxx:69 | a page address and flags in its low 12 bits do not overlap |
| PageTables.FrameRestoredExactly | kernel/s390/virtual.hxx:87-96 | the origin of an entry is the mapped frame if and only if the frame lies below 4 GiB |
| PageTables.RangeInUse | kernel/s390/virtual.cxx:50-60 | which segments have a page table after some pages of a range, given which allocations are granted |
| PageTables.RangeSets | kernel/s390/virtual.cxx:123-136 | each page of a range that gets a page table in time has its own entry afterwards |
| PageTables.RangeKeeps | kernel/s390/virtual.cxx:123-136 | every other page keeps its entry |
| PageTables.PagesCoverExactly | kernel/s390/virtual.cxx:128-130 | the rounded-up range covers the size if and only if rounding does not wrap; otherwise nothing is mapped |
| PageTables.RangeMappedExactly | kernel/s390/virtual.cxx:123-136 | every byte of the range translates to the matching physical byte if and only if the range does not wrap around, the frames end by 4 GiB, and every segment without a page table is granted one no later than its first page |
| VirtualStorage.TableReachedExactly | kernel/s390/virtual.hxx:58-69 | what is stored in a new page table is read back through its segment entry, whatever storage held before, if and only if the table lies below 4 GiB |
| VirtualStorage.TranslatesThrough | kernel/s390/virtual.cxx:85-98 | translation reads the word of eight bytes for the page in the table whose address stands in the segment entry, and adds the offset to the frame in its upper bits |
| VirtualStorage.InvalidBits | kernel/s390/virtual.hxx:58-94 | the bit worth 32 marks a segment entry as unmapped and the bit worth 1024 a page entry as invalid |
| VirtualStorage.AddressSpace.constructor | kernel/s390/virtual.cxx:10-22 | a new address space maps nothing |
| VirtualStorage.AddressSpace.ClearTable | kernel/s390/virtual.cxx:55-57 | every entry of the new page table is invalid and nothing else changes |
| VirtualStorage.MappedTranslatesExactly | kernel/s390/virtual.cxx:29-99 | the first page mapped in a segment translates to its frame, whatever storage held before, if and only if frame and page table lie below 4 GiB, or the frame is 0 and the table at a multiple of 4 GiB |
| VirtualStorage.AddressSpace.InstallTable | kernel/s390/virtual.cxx:53-59 | a new table is cleared and put in its segment; no other entry changes as long as tables lie below 4 GiB |
| VirtualStorage.AddressSpace.EnsureTable | kernel/s390/virtual.cxx:50-66 | segment table and storage are as specified wherever the table lies; below 4 GiB the segment has its table, or gets the one that is granted, or nothing changes |
| VirtualStorage.AddressSpace.MapPage | kernel/s390/virtual.cxx:29-71 | segment table and storage are as specified wherever page tables lie; below 4 GiB exactly one page of the flat map is updated, also when a page table is created; without storage for one it fails and changes nothing |
| VirtualStorage.AddressSpace.VirtualToReal | kernel/s390/virtual.cxx:73-99 | the address that the tables give wherever they lie; below 4 GiB a mapped page translates to its frame and the byte offset, and to null if its segment has no table |
| VirtualStorage.AddressSpace.FindInSegment | kernel/s390/virtual.cxx:105-118 | the first match in a segment |
| VirtualStorage.AddressSpace.Phys2Virt | kernel/s390/virtual.cxx:101-121 | the address of the first page mapped to the frame, 0 when there is none |
| VirtualStorage.AddressSpace.MapRange | kernel/s390/virtual.cxx:123-136 | segment table and storage after one map_page for each page of the rounded-up size, in 64-bit arithmetic, whatever each call returned; with page tables below 4 GiB also the flat map |
| Dasd.Driver.ReadDisk | kernel/s390/dasd.cxx:229-260 | the first of the four locations with a record is read, and the stored location is the one behind it, in unsigned short arithmetic and with 8-bit record numbers; after four failures nothing changes |
| Dasd.FourProbes | kernel/s390/dasd.cxx:229-260 | the four locations in their order, in numbers |
| Dasd.NumbersWrap | kernel/s390/dasd.cxx:238-249 | record, track and cylinder start over behind 65535 |
| Dasd.CutIsFront | kernel/s390/dasd.cxx:69-121 | of a record the first bytes are read, as many as there are and there is room for |
| Zdsfs.ReadFile | kernel/zdsfs.cxx:130-166 | where the loop ends, the buffer, its length and the return code are those of the specified reading |
| Zdsfs.ReadFromTurn | kernel/zdsfs.cxx:146-164 | the outcome of the loop is that of one turn and the rest of it, and the one ends if and only if the other does |
| Zdsfs.StayOnTrack | kernel/zdsfs.cxx:146-164 | at a number where the loop does not leave the track it goes on one number or two, or stops at the record behind a missing one |
| Zdsfs.LeaveTrack | kernel/s390/dasd.cxx:233-249 | at a number where it does it goes on to a record on a later track, if at all |
| Zdsfs.EndsExactly | kernel/zdsfs.cxx:146-164 | with track and cylinder numbers below 65535 on the disk, the loop ends from a location if and only if it never comes to a circular track of the extent, one that it leaves at none of its 256 numbers |
| Zdsfs.ReadingEndsExactly | kernel/zdsfs.cxx:146-164 | on such a disk it ends from every location if and only if no track of the extent is circular |
| Zdsfs.FullTrackNeverEnds | kernel/zdsfs.cxx:146-164 | from a track of the extent with a record at each of the 256 numbers it does not end |
| Zdsfs.HalfFullTrackNeverEnds | kernel/s390/dasd.cxx:233-249 | nor from one with records at the 128 even numbers only |
| Zdsfs.ReadTrack | kernel/zdsfs.cxx:146-164 | the records of a track are delivered in order |
| Zdsfs.NextTrackInNumbers | kernel/s390/dasd.cxx:238-249 | the track behind a track is the next of its cylinder or, behind the last one, the first of the next cylinder |
| Zdsfs.StepToNextTrack | kernel/s390/dasd.cxx:233-249 | behind the last record of a track the driver finds the first record of the next track or cylinder |
| Zdsfs.ReadDense | kernel/zdsfs.cxx:130-166 | all records of a dense dataset are delivered in order before anything else |
| Zdsfs.DatasetDeliveredExactly | kernel/zdsfs.cxx:130-166 | read_file delivers exactly the dataset if and only if the driver finds a record of no bytes behind it |
| Zdsfs.UnterminatedDataset | kernel/zdsfs.cxx:147-163 | without that record it fails, or delivers the next record of somebody else and stops or reads on behind it, depending on where that lies |
| Zdsfs.ShortRecordsWhole | kernel/zdsfs.cxx:147 | records of at most 3450 bytes are delivered whole |
| Zdsfs.LongRecordCut | kernel/zdsfs.cxx:147 | of a longer record the first 3450 bytes are delivered, and reading goes on with the next record |
| VirtualPaths.NameEnd | kernel/vdisk.cxx:116-117 | the name has no separator in it and one behind it, unless the path ends |
| VirtualPaths.Pick | kernel/vdisk.cxx:121-146 | the chosen child agrees with the name in length and sum, and none does when none is chosen |
| VirtualPaths.WalkSeesKeys | kernel/vdisk.cxx:113-149 | resolution looks at the lengths and character sums of the names of a path and at nothing else |
| VirtualPaths.SamePlaceExactly | kernel/vdisk.cxx:113-149 | in every tree of nodes whose names fit, two paths lead to the same place if and only if their names agree one by one in length and character sum, or both have a name longer than 24 characters |
| VirtualPaths.LongPathsLeadNowhere | kernel/vdisk.cxx:133-134 | in such a tree a path with a name of more than 24 characters leads nowhere |
| VirtualPaths.SeparatorsDoNotMatter | kernel/vdisk.cxx:79-152 | wherever a path has a separator it may as well have another, drive letters included |
| VirtualPaths.SlashesForAll | kernel/vdisk.cxx:85-117 | a path leads to the same place with slashes for its backslashes and full stops |
| VirtualPaths.SingleCharacter | kernel/vdisk.cxx:93-104 | a single letter of the alphabet is the index of a child, any other character leads nowhere else |
| VirtualPaths.BehindLetter | kernel/vdisk.cxx:102-109 | behind a letter only a colon with a separator goes on by names |
| VirtualPaths.WeightOfOne | kernel/storage.hxx:60-70 | a character weighs its own code |
| VirtualPaths.PlainNameFindable | kernel/vdisk.cxx:116-134 | a name of at most 24 characters without slash, backslash and full stop is findable, whatever else it holds |
| VirtualPaths.KeysOfJoin | kernel/vdisk.cxx:113-145 | the names of a joined path are those of both paths |
| VirtualPaths.WalkJoin | kernel/vdisk.cxx:113-149 | resolving a joined path is resolving the second part from where the first leads |
| VirtualPaths.GrowthKeepsPaths | kernel/vdisk.cxx:79-152 | a path that leads to a node leads to it in every tree that grew out of this one |
| VirtualPaths.AddingGrows | kernel/vdisk.cxx:47-63 | adding a child is such a growth |
| VirtualPaths.CreationsKeepPaths | kernel/vdisk.cxx:162-196 | over any sequence of creations every path that leads to a node goes on leading to it |
| VirtualPaths.AddedRanked | kernel/vdisk.cxx:47-63 | adding a new node keeps children ranked above their parents, so that the tree has no cycles |
| VirtualPaths.FindableExactly | kernel/vdisk.cxx:113-118 | a name is findable if and only if its first name, with the separator behind it, is all of it, and is as long as the name that is stored |
| VirtualPaths.WalkFindsExactly | kernel/vdisk.cxx:113-196 | from its parent a new node is found by any name it was created with if and only if that name is findable and no older child agrees with the stored name in length and character sum |
| VirtualPaths.OlderChildFound | kernel/vdisk.cxx:121-146 | when an older child agrees with a name of one piece, it is found in place of the node |
| VirtualPaths.ResolveBelow | kernel/vdisk.cxx:79-152 | a name behind a path is looked for where the path leads if the path starts with a separator or is letters, a colon and nothing or a separator behind it; otherwise it is not looked at |
| VirtualPaths.NewNodeFoundExactly | kernel/vdisk.cxx:79-196 | under any path that leads to its parent and the name it was created with, with any separator between them, the new node is found if and only if names behind the path are looked at, the name is findable and no older child agrees |
| VirtualPaths.OnlyChildFoundExactly | kernel/vdisk.cxx:162-196 | the only node under the root is found by the name it was created with if and only if that is findable |
| VirtualPaths.LongNameIsNotFound | kernel/vdisk.cxx:179-183 | a node created with a name of 25 characters under an empty root cannot be found |
| VirtualPaths.LastSeparatorIsCut | kernel/vdisk.cxx:179-183 | with a separator as the last of the 25 it is found |
| VirtualPaths.SeparatedNameIsNotFound | kernel/vdisk.cxx:116-117 | a node A.B is not found by its name |
| VirtualPaths.AnagramHidesNode | kernel/storage.hxx:60-70 | a node BA behind a node AB cannot be reached |
| VirtualDisk.Compare | kernel/storage.hxx:60-70 | the comparison is the difference of the character sums |
| VirtualDisk.BreakP | kernel/storage.hxx:119-128 | the distance to the first separator or to the end |
| VirtualDisk.Disk.FindChild | kernel/vdisk.cxx:121-146 | the loop finds the specified child |
| VirtualDisk.Disk.FindFile | kernel/vdisk.cxx:113-151 | the loop over the names leads where the specification does |
| VirtualDisk.Disk.ResolvePathRelative | kernel/vdisk.cxx:79-152 | the same for whole paths, drive letters included |
| VirtualDisk.Disk.AddChild | kernel/vdisk.cxx:47-63 | with permission the child comes last among its siblings and nothing else changes |
| VirtualDisk.Disk.CreateUnder | kernel/vdisk.cxx:172-196 | a new node with its name cut to 24 characters, or none and an unchanged tree; the terminator is written behind the name if and only if there are 24 characters or more |
| VirtualDisk.Disk.Create | kernel/vdisk.cxx:162-196 | the parent is where the path leads, or the root; under a path that leads somewhere the node is found by the name if and only if names behind the path are looked at, the name is findable and no older child compares equal |
| VirtualDisk.Disk.Init | kernel/vdisk.cxx:41-44 | both first nodes are found under their paths, with slashes, backslashes or full stops |
| CipherChunks.ChunkRoundTrip | kernel/crypto.cxx:346-353 | two words stored in eight bytes are loaded back, in either byte order |
| CipherChunks.ChunkBytesRoundTrip | kernel/crypto.cxx:346-353 | and eight bytes loaded as two words are stored back |
| CipherChunks.MapUndone | kernel/crypto.cxx:345-354 | what is undone on every chunk is undone on every buffer |
| CipherChunks.ShiftsOfJoined | kernel/crypto.cxx:346-353 | the bytes of a word by shifts |
| Blowfish.RoundsBack | kernel/crypto.cxx:66-106 | after any number of the sixteen rounds are undone, the halves are those of the remaining rounds with two subkeys applied |
| Blowfish.CipherUndone | kernel/crypto.cxx:60-106 | the cipher under reversed subkeys undoes the cipher, whatever the round function computes |
| Blowfish.BlockInverse | kernel/crypto.cxx:66-106 | each of block encryption and decryption undoes the other for every P-array and S-box |
| Blowfish.FUnwound | kernel/crypto.cxx:60-64 | F of the bytes of a word, with the entries of its bytes taken back in turn, is the entry of the highest byte |
| Blowfish.FSeesFourEntries | kernel/crypto.cxx:60-64 | no other entry of the S-box matters |
| Blowfish.CipherIsWires | kernel/crypto.cxx:66-85 | the halves of the result are words 16 and 17 of a recurrence: each word is the one before the last, with F of the last and the next subkey mixed in |
| Blowfish.SubkeysInOrder | kernel/crypto.cxx:66-106 | encryption takes the subkeys 0 to 17 in order, decryption in reverse |
| Blowfish.EncryptV | kernel/crypto.cxx:66-85 | the loop is the cipher under the subkeys in order |
| Blowfish.DecryptV | kernel/crypto.cxx:87-106 | the loop is the cipher under the subkeys in reverse |
| Blowfish.BufferInverse | kernel/crypto.cxx:340-379 | each of buffer encryption and decryption undoes the other |
| Blowfish.BlockOfBytes | kernel/crypto.cxx:345-354 | which bytes of a chunk are which half, in either byte order |
| Blowfish.ChunksApart | kernel/crypto.cxx:345-354 | a buffer is encrypted chunk by chunk |
| Blowfish.Encrypt | kernel/crypto.cxx:340-355 | every chunk that covers the length is encrypted, the rest of the output is unchanged, also in place |
| Blowfish.Decrypt | kernel/crypto.cxx:363-379 | the same for decryption |
| Xtea.SumNext | kernel/crypto.cxx:476-495 | the wrapping product of delta and the round count is the sum after that many rounds |
| Xtea.RoundInverse | kernel/crypto.cxx:478-499 | each of a round and its inverse undoes the other |
| Xtea.BlockInverse | kernel/crypto.cxx:472-504 | each of block encryption and decryption undoes the other for every key and round count |
| Xtea.RoundsInOrder | kernel/crypto.cxx:474-482 | encryption goes round by round, and the sum starts at 0 and grows by 0x9e3779b9 |
| Xtea.RoundUnwound | kernel/crypto.cxx:478-480 | what a round adds to each word, freed of the sum with the key word that bits 0 and 1, or 11 and 12, of the sum select and of the other word, is that word shifted both ways |
| Xtea.ShiftedBothWays | kernel/crypto.cxx:478-480 | by four to the left and five to the right |
| Xtea.EncryptV | kernel/crypto.cxx:472-485 | the loop applies the rounds in order |
| Xtea.DecryptV | kernel/crypto.cxx:491-504 | the loop takes them back, last one first |
| Xtea.BufferInverse | kernel/crypto.cxx:512-542 | each of buffer encryption and decryption undoes the other |
| Xtea.BlockOfBytes | kernel/crypto.cxx:517-522 | which bytes of a chunk are which word, in either byte order |
| Xtea.ChunksApart | kernel/crypto.cxx:517-522 | a buffer is encrypted chunk by chunk |
| Xtea.Encrypt | kernel/crypto.cxx:512-523 | every chunk that covers the length is encrypted, the rest of the output is unchanged, also in place |
| Xtea.Decrypt | kernel/crypto.cxx:531-542 | the same for decryption |
| LibioConvert.DigitCountExactly | sys/libio/stdlib.cxx:377-382 | a value has at most k digits if and only if it is below the k-th power of the base |
| LibioConvert.NumbufSufficesExactly | sys/libio/stdlib.cxx:363-389 | every 64-bit value, signed or not, is printed without overrunning the 24 digits or dividing by zero if and only if the base is at least 7 |
| LibioConvert.TwentyTwoDigits | sys/libio/stdlib.cxx:365-382 | from base 8 on 22 digits are enough |
| LibioConvert.DigitsInto | sys/libio/stdlib.cxx:377-382 | the digit loop stores the digits, least significant first, and fails if and only if they do not fit or the base is 1 |
| LibioConvert.CopyOut | sys/libio/stdlib.cxx:384-387 | the copy loop turns them around and terminates them |
| LibioConvert.UllToA | sys/libio/stdlib.cxx:363-389 | for every base: the buffer holds the sign, the digits and a terminator and is unchanged behind them; or the digits overrun their buffer; or the division traps |
| LibioConvert.PrintedReadsBack | sys/libio/stdlib.cxx:363-389 | whatever is printed in a base up to 201 can be read back from the text |
| LibioConvert.TellsApartExactly | sys/libio/stdlib.cxx:363-389 | every 64-bit value is printed, and no two as the same C string, if and only if the base is from 7 to 201 |
| LibioConvert.SpanBlanks | sys/libio/string.inl:225-248 | the span of leading blanks and tabs |
| LibioConvert.ReadDigits | sys/libio/stdlib.cxx:43-54 | the digit loop, and its overflow |
| LibioConvert.AToI | sys/libio/stdlib.cxx:24-67 | blanks, sign, prefix and digits as specified |
| LibioConvert.ParsePrintedExactly | sys/libio/stdlib.cxx:24-67 | every signed 64-bit value, printed in decimal between blanks and other text, is parsed back if and only if its magnitude is at most 2147483647; else the parser overflows |
| LibioConvert.ParseHexExactly | sys/libio/stdlib.cxx:35-54 | a hexadecimal number behind 0x is parsed as its value if and only if that is below 10 |
| LibioDigits.OneDigitPrinted | sys/libio/stdlib.cxx:377-382 | a value below the base is printed as one digit: 0 to 9, then capital letters and the codes behind them |
| LibioDigits.DigitBehind | sys/libio/stdlib.cxx:377-387 | a value of more digits is printed as its higher digits and the lowest one behind them |
| LibioDigits.MinusPrinted | sys/libio/stdlib.cxx:372-375 | a negative value is printed as a minus sign and its negative, any other as an unsigned one |
| LibioDigits.BinaryPrintedExactly | sys/libio/stdlib.cxx:365 | in base 2 a value is printed if and only if it has at most 24 digits |
| LibioDigits.BlankInFront | sys/libio/stdlib.cxx:29 | blanks and tabs in front do not matter |
| LibioDigits.OtherInFront | sys/libio/stdlib.cxx:29-54 | any other character that is no digit and no minus sign is read as 0 |
| LibioDigits.MinusRead | sys/libio/stdlib.cxx:30-33 | a minus sign negates what is read behind it |
| LibioDigits.OneDigitRead | sys/libio/stdlib.cxx:43-48 | a digit is read as its value |
| LibioDigits.DigitRead | sys/libio/stdlib.cxx:43-48 | one digit more makes ten times the number and the digit, or an overflow above 2147483647 |
| LibioDigits.HexadecimalDigits | sys/libio/ctype.cxx:77-84 | which characters of a hexadecimal text are worth how much |
| LibioDigits.PrefixRead | sys/libio/stdlib.cxx:35-54 | a zero or 0x in front of digits does not matter: they are read as decimal ones |
| CharacterTypes.HexDigitsAreDecimal | sys/libio/ctype.cxx:77-84 | isxdigit holds of the decimal digits only |

## Left out

- Storage allocator: `realloc`, `region::destroy`, locks, the checks of a debug build, the contents of the
  storage handed out. `size_t` has 64 bits and a descriptor 24 bytes. In `free` the early return for a walk
  past the address is left out: it is never reached, as the walk starts in front and leaves no gap.
- JDA: ownership and release of objects and token text, EXEC buffers, terminal output. Escapes in strings, the
  float parsing of `atof`, the arithmetic of `long double` and what routines do to the objects are parameters;
  routines do not touch the tokens. Strings copied by `strncpy` are taken as terminated. What happens after a
  read in front of the operator stack, through a null pointer or at a released name is not modelled.
- JDA sessions: a line that cannot be lexed also releases the texts of the tokens it leaves, whose use by the next
  line is not modelled. Lines are read up to their first zero byte; their number of characters is not bounded.
- Scheduler: contexts, stacks, names, priorities and address spaces of jobs and threads. The inner loop over
  threads always ends in its first turn, as no condition on threads exists yet.
- Timeshare.Table.Next: requires a runnable thread; without one the loop of the source never ends.
- Page tables: the answers of the allocator are parameters, pages apart from those in use, and the contents of
  fresh tables are arbitrary. Failure to allocate a segment table, locks and address-space control registers.
- VirtualStorage.AddressSpace.Phys2Virt: is about address spaces whose page tables lie below 4 GiB.
- VirtualStorage.AddressSpace.FindInSegment: the same.
- DASD: a single read is a lookup in a map of records; channel programs and writing.
- Zdsfs.ReadFile: requires that the loop ends.
- Zdsfs.EndsExactly: not about disks with records on track or cylinder 65535, behind which numbers start over at 0.
- Zdsfs.ReadingEndsExactly: the same.
- zdsfs: catalog lookup, file creation, free-space search.
- Virtual disk: node permissions and storage exhaustion are answers given as parameters, the letter of a
  drive is a function given as a parameter, and a name of 24 or more characters is taken as terminated
  behind its 24th. Paths and names stand for C strings without their terminator: they hold no zero byte. Drivers and their callbacks, removal of nodes, handles, buffered writing and flushing.
- VirtualDisk.Disk.Create: does not say by which paths a node is found whose path was empty or led nowhere; it
  is a child of the root then.
- Cryptography: Blowfish key generation, RSA and ARC4, whose code does not do what its comments say. The
  byte order of the processor is a parameter.
- LibioConvert.AToI: a signed overflow is an outcome of its own, as C++ leaves it undefined.
- Hardware, interrupts, boot code, loaders, kernel printf, the mathematics library and the other targets.
