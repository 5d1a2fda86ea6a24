# Proofs about a collection of systems programs

The repository is a set of independent C and C++ course programs. This project models the ones that
hold a real algorithm or protocol and proves what each of them is for. The modules of one program share
a prefix.

- **Expression compiler** (`Jit*`, `ArmMachine`). A tokenizer, a shunting-yard parser, and a generator
  of 32-bit ARM words with a literal pool that grows down from the end of a 4 KiB buffer. The tokenizer,
  the parser loop and the generator are methods proved against functions; a small ARM step machine
  (decoder, data processing, loads and stores, block transfers, calls of external functions that
  preserve `r4` and `sp`) runs the words. The main theorem, `JitCorrect.CompilerCorrect`, goes from the
  text to the result in `r0`.
- **In-file allocator** (`Allocator*`). A class over one array of signed block headers with a ghost block
  list; `my_malloc` and `my_free` refine a simple heap of pointers and payloads over every run.
- **Path normaliser** (`Path*`). In-place shifts of a NUL-terminated array and a recursion that reports
  a `..` still to be cancelled, against a left fold over segments with a stack. It differs from its
  specification on two families of paths, and the theorems say exactly which.
- **External merge sort** (`Sort*`, `ExternalSort`). Files with seek positions, reads and writes of
  arbitrary partial length, two shared temporary files and a chunked merge that seeks back. The library's
  `qsort` is a parameter; its comparison is a 32-bit difference, and the theorems say exactly which files
  that sorts.
- **Prime handoff** (`Condvar`), **concurrent queue and stack** (`AtomicQueue`, `AtomicStack`,
  `PushOrder`), **throttled parallel map** (`ParallelMap`). Each is a step system whose theorems hold of
  every interleaving.
- **Number spiral** (`Spiral*`), **DNS client** (`Dns*`), **Internet checksum**
  (`InternetChecksum`), **factoring** (`Factoring`, `Primes`). Loops with a crisp specification: the
  text of the spiral, RFC 1035, RFC 1071, and the unique prime factorisation.

Where a program does not meet its purpose on an input that its model covers, the model keeps the
program's behaviour, gives a failing input, and states the exact condition. What the models do not cover
is listed at the end.

## Model

| member | source | states |
|---|---|---|
| JitLexer.Reader.ReadToken | asm-arm_codegen_compileexpr-1/jit_compile_arm.cpp:433-464 | One call consumes exactly one token of the unread text: the token and the text left are those of `Scan`; a digit run becomes its decimal value, unknown characters are skipped. |
| JitLexer.Reader.ReadName | asm-arm_codegen_compileexpr-1/jit_compile_arm.cpp:466-479 | Reads the longest run of letters and digits and leaves the pointer right behind it. |
| JitLexer.Reader.ReadNumber | asm-arm_codegen_compileexpr-1/jit_compile_arm.cpp:481-495 | Reads the longest digit run and returns its value in base ten. |
| JitLexer.TokensOfLayout | asm-arm_codegen_compileexpr-1/jit_compile_arm.cpp:433-495 | Any list of correctly spelled words in which names and numbers do not touch, with any skipped characters around them, is read as exactly its tokens. |
| JitPlain.Spelling | asm-arm_codegen_compileexpr-1/jit_compile_arm.cpp:433-495 | In plain characters: what an identifier, a numeral, and a gap between words are. |
| JitPlain.NameRead | asm-arm_codegen_compileexpr-1/jit_compile_arm.cpp:455-479 | A letter, small or capital, and all letters and digits behind it are read as one name, and what follows stays unread. |
| JitPlain.NumberRead | asm-arm_codegen_compileexpr-1/jit_compile_arm.cpp:481-495 | A run of digits is read as one number. |
| Decimals.DecimalConcat | asm-arm_codegen_compileexpr-1/jit_compile_arm.cpp:481-495 | The value of a digit run is positional in base ten. |
| JitPlain.OtherCharacters | asm-arm_codegen_compileexpr-1/jit_compile_arm.cpp:433-464 | Each of the characters `+ - * ( ) ,` is its own token, and every other character that is no letter or digit is skipped. |
| JitParser.FromInfixString | asm-arm_codegen_compileexpr-1/jit_compile_arm.cpp:342-431 | The parser loop over the reader computes the function `FromInfix` of the text. |
| JitParser.ProcessToken | asm-arm_codegen_compileexpr-1/jit_compile_arm.cpp:361-423 | One round of the loop, with its inner popping loops, is the function `Step`. |
| JitSyntax.WordsSeparable | asm-arm_codegen_compileexpr-1/jit_compile_arm.cpp:342-516 | In every rendering of a tree names and numbers never touch, so the tokenizer reads it back. |
| JitSyntax.BracketedIsLegal | asm-arm_codegen_compileexpr-1/jit_compile_arm.cpp:342-516 | Every tree has a legal rendering, so the parser theorem leaves no tree out. |
| JitParserProof.EmittedThenPopped | asm-arm_codegen_compileexpr-1/jit_compile_arm.cpp:361-431 | What has gone to the output plus the operators still on the stack is the post-order of what was read. |
| JitParserProof.ReadExpression | asm-arm_codegen_compileexpr-1/jit_compile_arm.cpp:361-423 | Reading any legal rendering leaves what was on the stack in place and extends output and stack by exactly its own part. |
| JitParserProof.ReadArguments | asm-arm_codegen_compileexpr-1/jit_compile_arm.cpp:378-411 | The bracket on the stack counts the arguments, one comma at a time. |
| JitParserProof.FromInfixIsPostOrder | asm-arm_codegen_compileexpr-1/jit_compile_arm.cpp:342-516 | For every tree and every legal rendering (redundant brackets, spaces), the parser yields exactly the post-order, with precedence, left associativity, argument counts and negated constants. |
| JitPlain.Precedence | asm-arm_codegen_compileexpr-1/jit_compile_arm.cpp:388-400 | For all names and operators, of two operators in a row the second goes first only when it is a multiplication and the first is not. |
| JitPlain.Bracketing | asm-arm_codegen_compileexpr-1/jit_compile_arm.cpp:384-401 | Brackets keep together what they enclose, whatever the operators. |
| JitPlain.Calling | asm-arm_codegen_compileexpr-1/jit_compile_arm.cpp:378-401 | A call comes after its arguments, in their order, with their number. |
| JitPlain.NegativeNumber | asm-arm_codegen_compileexpr-1/jit_compile_arm.cpp:372-377 | A minus sign before a number belongs to the number. |
| JitLimits.MinusGoesToLeftmostConstant | asm-arm_codegen_compileexpr-1/jit_compile_arm.cpp:373-405 | From any parser about to read a legal expression with a minus sign waiting, the sign goes to the leftmost constant, however deep inside; an expression without constants is read as it stands and the sign goes on waiting. |
| JitLimits.LeadingMinus | asm-arm_codegen_compileexpr-1/jit_compile_arm.cpp:342-431 | For every rendering, a text that puts a minus sign in front of it is parsed as the rendering with its leftmost constant negated, and as the rendering itself when it has no constant. |
| JitLimits.EmptyCallCountsAsOne | asm-arm_codegen_compileexpr-1/jit_compile_arm.cpp:384-401 | For every name and every parser about to read an operand, an empty argument list is counted as one argument. |
| JitCodegen.ExpressionFuncGenerator.SetSymbols | asm-arm_codegen_compileexpr-1/jit_compile_arm.cpp:226-235 | Every symbol's address goes to the literal pool, and the map holds its place in the buffer, the last of equal names winning. |
| JitCodegen.ExpressionFuncGenerator.ProcessStackOperand | asm-arm_codegen_compileexpr-1/jit_compile_arm.cpp:277-323 | One operand appends exactly its code and literal to the state. |
| JitCodegen.ExpressionFuncGenerator.GenerateMachineCommands | asm-arm_codegen_compileexpr-1/jit_compile_arm.cpp:237-245 | Prologue, all operands in order, epilogue. |
| JitCodegen.ExpressionFuncGenerator.WriteCommandsByPtr | asm-arm_codegen_compileexpr-1/jit_compile_arm.cpp:325-340 | The buffer holds the commands from the start and the literals from the end, the literals where the two meet; when both fit, each command and literal is in its place. |
| JitSize.FitsExactly | asm-arm_codegen_compileexpr-1/jit_compile_arm.cpp:237-340 | From the tree alone: the code of a text fits in the buffer if and only if its commands (two for a constant, three for a variable, four for an operator, five and the arguments for a call), its constants, the symbols and four more words do. |
| JitCorrect.PoolReach | asm-arm_codegen_compileexpr-1/jit_compile_arm.cpp:257-302 | When everything fits, each PC-relative offset lies in 0..4095 and hits exactly its literal, which lies behind the code. |
| JitCorrect.SymbolsLaid | asm-arm_codegen_compileexpr-1/jit_compile_arm.cpp:226-235 | After `SetSymbols` the map leads every name to the place of its last address in the pool. |
| JitInstructions.DecodeLiteralLoad | asm-arm_codegen_compileexpr-1/jit_compile_arm.cpp:184-190 | Adding an offset in range to the opcode word carries into no other field: the word decodes to the intended load. |
| JitInstructions.ExecuteSave | asm-arm_codegen_compileexpr-1/jit_compile_arm.cpp:237-245 | The prologue word stores `r4` and `lr` below the stack pointer. |
| JitMachineProof.StepPush | asm-arm_codegen_compileexpr-1/jit_compile_arm.cpp:318-322 | A push adds one word and leaves the cells below and all memory outside the stack as they were. |
| JitSemantics.EvaluatePostOrder | asm-arm_codegen_compileexpr-1/jit_compile_arm.cpp:277-323 | Evaluating a post-order on a stack of words pushes the tree's integer value modulo 2^32. |
| JitPlain.Meaning | asm-arm_codegen_compileexpr-1/jit_compile_arm.cpp:277-323 | Sums, differences and products have their integer values, and arguments reach a function in their order, reduced modulo 2^32. |
| JitPlain.PopWords | asm-arm_codegen_compileexpr-1/jit_compile_arm.cpp:289-293 | The instruction words of the pops before a call, written out for one to four arguments. |
| JitCorrect.RunOperand | asm-arm_codegen_compileexpr-1/jit_compile_arm.cpp:277-323 | The machine code of one operand takes its arguments off the machine's stack and pushes exactly its result. |
| JitCorrect.RunAll | asm-arm_codegen_compileexpr-1/jit_compile_arm.cpp:237-245 | The code of a whole reverse Polish form does to the machine's stack what evaluating it does to a stack of words. |
| JitCorrect.CompiledCodeComputes | asm-arm_codegen_compileexpr-1/jit_compile_arm.cpp:237-340 | Entered at its first word, the code of a tree returns to the caller with the tree's value in `r0`, `sp` and `r4` as on entry. |
| JitCorrect.CompilerCorrect | asm-arm_codegen_compileexpr-1/jit_compile_arm.cpp:263-274 | End to end: for every tree and every legal text of it, the words written for the text, run on the machine, return the tree's value modulo 2^32 with `sp`, `r4` and the caller's memory kept. |
| JitCorrect.JitCompileExpressionToArm | asm-arm_codegen_compileexpr-1/jit_compile_arm.cpp:263-274 | The exported function writes the generated code, and when it fits leaves the buffer that `CompilerCorrect` is about. |
| Allocator.AlignBytesExact | inf10-3-posix_mmap_swap-file-mem-allocator/main.c:25-30 | The rounded word count is exact if and only if it is below 2^31. |
| AllocatorRuns.WordsHoldBytes | inf10-3-posix_mmap_swap-file-mem-allocator/main.c:25-30 | The words of a request are the fewest that hold its bytes. |
| Allocator.SearchFindsFirstFit | inf10-3-posix_mmap_swap-file-mem-allocator/main.c:59-84 | The search returns the first fit, and nothing if and only if no run of adjacent free blocks fits. |
| Allocator.SwapFile.constructor | inf10-3-posix_mmap_swap-file-mem-allocator/main.c:39-57 | One free block spans the zeroed file. |
| Allocator.SwapFile.FindFirstEmptyGap | inf10-3-posix_mmap_swap-file-mem-allocator/main.c:59-84 | The loop over headers returns start and length of the found run, or -1. |
| Allocator.SwapFile.MyMalloc | inf10-3-posix_mmap_swap-file-mem-allocator/main.c:95-117 | Changes the array and the block list exactly as `Malloc` says; zero bytes give nothing and change nothing; the headers stay valid if and only if the 32-bit size is not -1. |
| Allocator.SwapFile.MyFree | inf10-3-posix_mmap_swap-file-mem-allocator/main.c:119-135 | Frees the block and the free blocks behind it, leaves a block already free alone, and refuses pointers outside the file. |
| AllocatorRuns.FreeMerges | inf10-3-posix_mmap_swap-file-mem-allocator/main.c:119-135 | A freed block becomes one free block with all free blocks behind it, up to the next block in use or the end, and all other blocks stay. |
| AllocatorRuns.FreeTwice | inf10-3-posix_mmap_swap-file-mem-allocator/main.c:125-129 | Freeing the same pointer again changes nothing. |
| AllocatorBlocks.FirstFitUnique | inf10-3-posix_mmap_swap-file-mem-allocator/main.c:59-84 | There is at most one first fit. |
| AllocatorBlocks.AllocatedValid | inf10-3-posix_mmap_swap-file-mem-allocator/main.c:109-113 | Placing a block, with or without a rest, keeps the headers tiling the file. |
| AllocatorBlocks.FreedValid | inf10-3-posix_mmap_swap-file-mem-allocator/main.c:130-134 | Freeing with forward coalescing keeps the headers tiling the file. |
| AllocatorView.PayloadsDisjoint | inf10-3-posix_mmap_swap-file-mem-allocator/main.c:95-117 | Live payloads are pairwise disjoint and hold no header. |
| AllocatorView.ViewAllocated | inf10-3-posix_mmap_swap-file-mem-allocator/main.c:95-117 | Allocating adds one fresh pointer with the requested words and changes no other payload. |
| AllocatorView.ViewFreed | inf10-3-posix_mmap_swap-file-mem-allocator/main.c:119-135 | Freeing removes exactly the pointer and changes no other payload. |
| AllocatorView.ViewWritten | inf10-3-posix_mmap_swap-file-mem-allocator/main.c:95-117 | A user's write inside a payload changes that payload only and no header. |
| AllocatorView.UsedPlusFree | inf10-3-posix_mmap_swap-file-mem-allocator/main.c:39-57 | Words in use and free words add up to the file. |
| AllocatorRuns.PerformRefines | inf10-3-posix_mmap_swap-file-mem-allocator/main.c:95-135 | One operation is one step of a heap of pointers and payloads that knows nothing of blocks: a request gets a new pointer with a payload of the 32-bit size (below 2^31 words the size asked for), or nothing and no change. |
| AllocatorRuns.RunsRefine | inf10-3-posix_mmap_swap-file-mem-allocator/main.c:95-135 | Over every run of requests that keep the headers, frees of live pointers and writes into payloads, the headers tile the file, used and free words total it, and the run is one of the simple heap, exactly as asked when the requests are below 2^31 words. |
| AllocatorRuns.RunsPreserve | inf10-3-posix_mmap_swap-file-mem-allocator/main.c:95-135 | Over every such run, a payload that the client neither frees nor writes stays the same. |
| AllocatorRuns.LiveCanBeReleased | inf10-3-posix_mmap_swap-file-mem-allocator/main.c:119-135 | In runs of requests below 2^31 words every live pointer is one that `my_free` accepts. |
| AllocatorRuns.MallocFailsExactly | inf10-3-posix_mmap_swap-file-mem-allocator/main.c:95-117 | Says exactly for which request sizes "fails if and only if no run of free blocks has room" holds: all below 2^31 words, and which beyond. |
| AllocatorRuns.ZeroBytes | inf10-3-posix_mmap_swap-file-mem-allocator/main.c:96-99 | A request for zero bytes gets nothing, and nothing changes. |
| AllocatorRuns.MallocTakesFirstFit | inf10-3-posix_mmap_swap-file-mem-allocator/main.c:95-117 | A request that keeps the headers and succeeds takes the lowest maximal run with room for its 32-bit size. |
| AllocatorRuns.ValidExactly | inf10-3-posix_mmap_swap-file-mem-allocator/main.c:25-117 | A request keeps the headers if and only if its number of words is not 2^32 - 1 modulo 2^32; the others succeed and destroy the first header. |
| AllocatorRuns.HugeRequestCorrupts | inf10-3-posix_mmap_swap-file-mem-allocator/main.c:25-117 | The smallest such request. |
| AllocatorRuns.AskedForExactly | inf10-3-posix_mmap_swap-file-mem-allocator/main.c:25-117 | Of the requests that keep the headers, exactly those do what they are asked for that are below 2^31 words or find nothing: a negative 32-bit size, or no room for it. |
| AllocatorRuns.TruncatedRequest | inf10-3-posix_mmap_swap-file-mem-allocator/main.c:25-117 | A request of 2^32 + 1 words gets a payload of one word. |
| AllocatorRuns.AllFreedThenWhole | inf10-3-posix_mmap_swap-file-mem-allocator/main.c:95-135 | After any run that leaves nothing live, a request succeeds, at word 1, exactly when its 32-bit size is at most all words but one (or is -1); below 2^31 words that is the size asked for. |
| PathNormalize.ReadName | inf09-0_c_texts_normalize-path/main.c:8-13 | Finds the next slash or the end. |
| PathNormalize.StrNCmp | inf09-0_c_texts_normalize-path/main.c:21-27 | Zero exactly when the first `n` characters agree. |
| PathNormalize.ShiftLeft | inf09-0_c_texts_normalize-path/main.c:46-58 | The text behind the pointer loses its first characters; nothing in front changes. |
| PathNormalize.ShiftRight | inf09-0_c_texts_normalize-path/main.c:46-58 | The text moves to the right inside the array; nothing in front changes. |
| PathNormalize.RestoreCoupler | inf09-0_c_texts_normalize-path/main.c:61-71 | Leading slashes become one, and the result says whether there is one. |
| PathNormalize.NormalizeRelativePath | inf09-0_c_texts_normalize-path/main.c:73-95 | The recursion over the array leaves the text and the flag of `Relative`, touches nothing in front, and terminates because every recursive call is on a shorter text. |
| PathNormalize.NormalizePath | inf09-0_c_texts_normalize-path/main.c:98-108 | In any array that holds the text and has room for the result, every access is inside and the result is `Normalize`. |
| PathGrowth.GrowsExactly | inf09-0_c_texts_normalize-path/main.c:98-108 | The result is longer than the text if and only if the path is empty, a single dot, or nothing but `..` between single slashes; for all other paths an array of the text and its terminator suffices. |
| PathGrowth.ClimbGrowsExactly | inf09-0_c_texts_normalize-path/main.c:98-104 | The text with its `../` written back is longer than the path exactly for paths of nothing but `..`, and then by one character. |
| PathText.LeftOverIsShort | inf09-0_c_texts_normalize-path/main.c:73-108 | A left-over `..` has shortened the text by three characters when a plain `../` was in front, by at least two when nothing but a slash remains, and by at least four otherwise. |
| PathSpec.RelativeFolds | inf09-0_c_texts_normalize-path/main.c:73-95 | The recursion computes the left fold over the segments up to the first left-over `..`. |
| PathSpec.NormalizeFolds | inf09-0_c_texts_normalize-path/main.c:73-108 | For every path the program writes what the fold over its segments keeps, names classified by prefix. |
| PathLaws.OneCall | inf09-0_c_texts_normalize-path/main.c:73-95 | On plain text: what one call makes of a path that starts with `.`, `..`, a kept name, or a slash. |
| PathLaws.Laws | inf09-0_c_texts_normalize-path/main.c:73-108 | On plain text: `./` in front disappears, `../` in front stays in front, a name and a `..` behind it cancel, and kept names stay. |
| PathLaws.DoubleSlash | inf09-0_c_texts_normalize-path/main.c:61-71 | A doubled slash counts as one. |
| PathProperties.MeetsSpecificationExactly | inf09-0_c_texts_normalize-path/main.c:73-108 | The result is the specified one if and only if no name starts with a dot (but `.` and `..`) and an absolute path never climbs above the root. |
| PathProperties.IdempotentExactly | inf09-0_c_texts_normalize-path/main.c:98-108 | Normalising twice equals normalising once if and only if the path is relative or never climbs above the root. |
| PathProperties.OutsideTheSpecification | inf09-0_c_texts_normalize-path/main.c:82-107 | Concrete paths of both failing families and what comes out. |
| SortFiles.ReadBytes | inf08-2_files-io_sort-file-contents/main.c:24-37 | However `read` splits the request, everything wanted or all there is arrives. |
| SortFiles.WriteBytes | inf08-2_files-io_sort-file-contents/main.c:13-22 | However `write` splits the request, the file is overwritten with all of it. |
| SortBytes.IntAt | inf08-2_files-io_sort-file-contents/main.c:39-54 | Integer i of a list of bytes is made of the four bytes from 4i on, the lowest first, in two's complement. |
| ExternalSort.SegmentAt | inf08-2_files-io_sort-file-contents/main.c:43-54 | The same for the integers of a part of a file. |
| SortFiles.CopyFileSegment | inf08-2_files-io_sort-file-contents/main.c:65-72 | The block-wise copy of an `int` count that is not negative is one overwrite of the target at its seek position. |
| SortFiles.ByteCountExact | inf08-2_files-io_sort-file-contents/main.c:117-138 | The byte count of n integers is exact as an `int` if and only if n is below 2^29; from there up to 2^30 it is negative. |
| SortFiles.SeekBackExact | inf08-2_files-io_sort-file-contents/main.c:74-121 | The negated unsigned seek offset moves back by exactly the unconsumed integers. |
| SortMerge.MergePermutes | inf08-2_files-io_sort-file-contents/main.c:74-88 | Merging keeps all elements. |
| SortMerge.MergeSortsExactly | inf08-2_files-io_sort-file-contents/main.c:74-88 | A merge is sorted if and only if both its inputs are. |
| SortMerge.MergingIsMerge | inf08-2_files-io_sort-file-contents/main.c:74-88 | What the chunk loop puts out is a beginning of the merge of the whole inputs, whatever follows the chunks. |
| ExternalSort.MergeRounds | inf08-2_files-io_sort-file-contents/main.c:91-111 | After every round, on sorted inputs, the output is sorted, is at most every unconsumed element, and with them permutes both inputs; what is still to come is the merge of the rests, and the rounds are at most the buffers of the inputs. |
| ExternalSort.BuffersHold | inf08-2_files-io_sort-file-contents/main.c:98-111 | The bound on the rounds counts the fewest buffers of 10000 that hold the inputs. |
| ExternalSort.MergeChunks | inf08-2_files-io_sort-file-contents/main.c:74-88 | The loop stops when one chunk is used up, with the taken elements merged. |
| ExternalSort.MergeFiles | inf08-2_files-io_sort-file-contents/main.c:91-121 | Writes the merge of the two inputs at the seek position, for inputs whose byte counts fit in an `int`, in at most as many rounds as the inputs have buffers. |
| ExternalSort.SortFileSegment | inf08-2_files-io_sort-file-contents/main.c:47-54 | A segment becomes what the library's `qsort` makes of it, in place, and all else stays. |
| ExternalSort.MergeSort | inf08-2_files-io_sort-file-contents/main.c:123-143 | For any `qsort`, the part becomes what the sort of lists makes of it and the rest of the file stays, whatever the shared temporary files held, for parts whose halves have fewer than 2^29 integers. |
| ExternalSort.FileSortedExactly | inf08-2_files-io_sort-file-contents/main.c:123-143 | For every file and part: the integers of the part and all other bytes are kept, and the part gets sorted, whatever `qsort` the library has, if and only if in each segment sorted in memory the differences fit in 32 bits. |
| ExternalSort.BothHalves | inf08-2_files-io_sort-file-contents/main.c:123-143 | After both recursive calls, writing the merge of the halves completes the sort of the whole part. |
| SortCompare.CmpOrdersExactly | inf08-2_files-io_sort-file-contents/main.c:39-41 | The 32-bit difference tells the order of two integers if and only if it does not wrap. |
| SortCompare.CmpSortsExactly | inf08-2_files-io_sort-file-contents/main.c:39-51 | Every arrangement in which the comparison never finds a decrease is sorted if and only if all differences fit in 32 bits. |
| SortCompare.TwoFarApart | inf08-2_files-io_sort-file-contents/main.c:39-51 | Two integers in the wrong order that the comparison takes to be in the right one. |
| SortCompare.SortsExactly | inf08-2_files-io_sort-file-contents/main.c:123-143 | The sort of lists sorts, whatever `qsort` the library has, if and only if its in-memory segments are comparable; otherwise a `qsort` that keeps to the comparison on every input leaves the list unsorted. |
| Condvar.Prime | inf19-1_posix_threads_condvar/file.c:22-35 | True exactly for primes. |
| Condvar.PrimesInRange | inf19-1_posix_threads_condvar/file.c:42-43 | The list that is to be printed holds exactly the primes of the range, ascending. |
| Condvar.HandoffIsSafe | inf19-1_posix_threads_condvar/file.c:37-116 | In every interleaving with spurious wakeups, what is printed is a prefix of the primes of the range, no state is stuck, and at the end exactly the first min(N, count) primes are printed. |
| Condvar.HandoffTerminates | inf19-1_posix_threads_condvar/file.c:37-116 | Every interleaving ends within a bound given by the range and the spurious wakeups. |
| Condvar.StuckExactly | inf19-1_posix_threads_condvar/file.c:54-112 | Some interleaving gets stuck if and only if N is below one and the range holds a prime. |
| AtomicQueue.QueueIsComplete | inf19-2_posix_threads_atomic/main.c:19-62 | In every interleaving, after all joins the chain from the head runs through all n*k values once in exchange order, each worker's in its own order, and `size` is right. |
| AtomicQueue.Traverse | inf19-2_posix_threads_atomic/main.c:85-89 | The final loop follows no null link and prints the values in exchange order. |
| AtomicQueue.NothingBlocks | inf19-2_posix_threads_atomic/main.c:19-30 | A worker that has not returned can always step. |
| PushOrder.CompleteIsPermutation | inf19-2_posix_threads_atomic/main.c:55-62 | An order in which each worker's values occur in its order holds every value from 0 to n*k exactly once. |
| PushOrder.CompleteKeepsOrder | inf19-2_posix_threads_atomic/main.c:55-62 | In such an order, of two values of the same worker the smaller one comes first. |
| AtomicStack.StackIsComplete | inf19-2_posix_threads_atomic/file.c:20-40 | In every interleaving, after all joins no store is missing and every value occurs once, each item leading to the one exchanged before it. |
| AtomicStack.PrintAll | inf19-2_posix_threads_atomic/file.c:12-18 | Prints as many values as were exchanged, value j being the j-th from the end of the exchange order; with nothing exchanged the null head would be dereferenced. |
| AtomicStack.ReversedAt | inf19-2_posix_threads_atomic/file.c:12-18 | What comes out at place j is what went in j places before the end. |
| AtomicStack.PrintableExactly | inf19-2_posix_threads_atomic/file.c:66-69 | The head that is dereferenced is not null if and only if n and k are positive. |
| ParallelMap.ParallelMapIsCorrect | inf20-1_posix_shm_sem_map-on-processes/main.c:19-54 | In every interleaving at most `threads_count` workers are between creation and post, the drain ends only after every worker has posted, nothing deadlocks, and on return `out[i] == func(in[i])`. |
| ParallelMap.ParallelMapTerminates | inf20-1_posix_shm_sem_map-on-processes/main.c:28-54 | Every interleaving ends within a bound given by the input and the processors. |
| SpiralShape.CellOfNumber | inf10-2_posix_mmap_make-spiral-file/main.c:18-36 | The cells hold numbers from 1 to n*n, and each cell is where its number belongs. |
| SpiralShape.NumberOfCell | inf10-2_posix_mmap_make-spiral-file/main.c:18-36 | Every number from 1 to n*n is in the cell that belongs to it; with `CellOfNumber` this is a bijection. |
| SpiralShape.WalkIsConnected | inf10-2_posix_mmap_make-spiral-file/main.c:18-36 | Consecutive numbers are in cells that share an edge. |
| SpiralShape.InsideRings | inf10-2_posix_mmap_make-spiral-file/main.c:27-35 | Inside k rings the numbers go on as in a smaller spiral. |
| SpiralShape.Clockwise | inf10-2_posix_mmap_make-spiral-file/main.c:27-35 | The numbers of every ring in closed form: along the top to the right, down the right side, along the bottom to the left, up the left side. |
| Spiral.WriteLine | inf10-2_posix_mmap_make-spiral-file/main.c:10-16 | Every write is inside the file; when numbers have room, a line of cells gets its consecutive numbers right-justified and all other cells, newlines and the corner written twice keep what they show. |
| Spiral.Ring | inf10-2_posix_mmap_make-spiral-file/main.c:28-32 | The four lines of a ring cover exactly the cells between two nested squares. |
| Spiral.ShowsRows | inf10-2_posix_mmap_make-spiral-file/main.c:18-36 | A file that shows every cell is exactly the n newline-ended rows of right-justified cells. |
| Spiral.WriteSpiral | inf10-2_posix_mmap_make-spiral-file/main.c:18-36 | With at least one column a cell every write is inside the file, and the file ends up as the text of the spiral if and only if the digits of n*n have room in a cell; then, character by character, row r takes n*w+1 characters, the last one a newline, and holds its numbers right-justified in w columns each. |
| Decimals.NoLeadingZero | inf10-2_posix_mmap_make-spiral-file/main.c:12 | A number is written without leading zeros. |
| Spiral.TooNarrow | inf10-2_posix_mmap_make-spiral-file/main.c:18-36 | When some number has no room, the text of the spiral is longer than the file. |
| DnsNames.DottedLabels | inf22-2_posix_sockets_udp-dns-resolver/main.c:89-110 | The labels of a domain are free of dots and joined by dots give the domain back. |
| DnsNames.LabelsDotted | inf22-2_posix_sockets_udp-dns-resolver/main.c:89-110 | No other list of labels without dots does. |
| DnsNames.ShortName | inf22-2_posix_sockets_udp-dns-resolver/main.c:99-109 | The name `a.bc` byte by byte. |
| DnsNames.DecodeEncode | inf22-2_posix_sockets_udp-dns-resolver/main.c:99-109 | The encoded name reads back, by section 3.1 of RFC 1035, as the labels that are not empty when none exceeds 63 bytes, and not at all otherwise. |
| DnsNames.NameRoundTripExactly | inf22-2_posix_sockets_udp-dns-resolver/main.c:89-110 | The encoded name reads back as the labels of the domain if and only if every label has 1 to 63 bytes. |
| DnsNames.DecodedLength | inf22-2_posix_sockets_udp-dns-resolver/main.c:99-109 | Whatever reads as labels and a rest has the length of those labels encoded, a zero byte and the rest. |
| DnsQuestion.BuildDnsQuestion | inf22-2_posix_sockets_udp-dns-resolver/main.c:89-110 | The text buffer ends up as the encoded labels followed by zeros, type and class as 1 in network order. |
| DnsPacket.Represent | inf22-2_posix_sockets_udp-dns-resolver/main.c:57-69 | What is sent is the packet if and only if the packet has at most 255 bytes, since the length is counted in eight bits. |
| DnsPacket.Request | inf22-2_posix_sockets_udp-dns-resolver/main.c:138-148 | What is sent for a domain reads back as its labels, type 1 and class 1, if and only if every label has 1 to 63 bytes and the packet has at most 255; its header asks for recursion and counts one question, all else zero. |
| DnsPacket.LongDomain | inf22-2_posix_sockets_udp-dns-resolver/main.c:57-69 | Four labels of 60 bytes, which the standard allows, make a packet of 261 bytes. |
| DnsPacket.LongLabel | inf22-2_posix_sockets_udp-dns-resolver/main.c:99-109 | A label of 64 bytes is sent and cannot be read; one of 63 can. |
| DnsPacket.QuestionsCount | inf22-2_posix_sockets_udp-dns-resolver/main.c:35-42 | The number of questions is in bytes 4 and 5 of the header, high byte first. |
| DnsPacket.AnswersCount | inf22-2_posix_sockets_udp-dns-resolver/main.c:35-42 | The number of answers is in bytes 6 and 7 of the header, high byte first. |
| DnsPacket.RecordHead | inf22-2_posix_sockets_udp-dns-resolver/main.c:26-33 | Where name, type, class, time to live and data length are among the first twelve bytes of a record. |
| DnsPacket.AnswerOf | inf22-2_posix_sockets_udp-dns-resolver/main.c:26-33 | Which of the sixteen bytes cut out of a reply each field of an answer is. |
| DnsPacket.SectionsInOrder | inf22-2_posix_sockets_udp-dns-resolver/main.c:76-86 | Questions and records lie in the message in their order. |
| DnsPacket.Parse | inf22-2_posix_sockets_udp-dns-resolver/main.c:71-87 | The skips over questions and the stride 12 + data length hit the start of every record, so each answer shows its record. |
| DnsPacket.GetIp | inf22-2_posix_sockets_udp-dns-resolver/main.c:121-128 | The address of the first record of type 1, and zero if there is none. |
| DnsPacket.AddressInReply | inf22-2_posix_sockets_udp-dns-resolver/main.c:163-165 | From the bytes of a reply: the address of the first record of type 1, and zero if there is none. |
| InternetChecksum.Checksum | inf22-1_posix_sockets_icmp-ping/main.c:33-48 | For at most 65537 words the result is the complement of the word-by-word one's complement sum. |
| InternetChecksum.DeferredCarries | inf22-1_posix_sockets_icmp-ping/main.c:33-48 | Up to that size the 32-bit sum does not overflow, and two folds of it give the one's complement sum. |
| InternetChecksum.SumModulo | inf22-1_posix_sockets_icmp-ping/main.c:33-48 | The one's complement sum is the plain sum modulo 2^16 - 1, and zero only when all words are. |
| InternetChecksum.StandardExample | inf22-1_posix_sockets_icmp-ping/main.c:33-48 | The example of section 3 of RFC 1071, whose sum has a carry. |
| InternetChecksum.OddTail | inf22-1_posix_sockets_icmp-ping/main.c:41-43 | A last odd byte counts like the byte followed by a zero. |
| InternetChecksum.CorrectExactlyWhenItFits | inf22-1_posix_sockets_icmp-ping/main.c:33-48 | For every length an `int` can give, the result is the standard's if and only if the plain sum fits in 32 bits. |
| InternetChecksum.LimitIsTight | inf22-1_posix_sockets_icmp-ping/main.c:38-40 | 65538 words of ones give a wrong checksum. |
| InternetChecksum.StoredChecksumVerifies | inf22-1_posix_sockets_icmp-ping/main.c:51-57 | Storing the checksum in an aligned field that was zero makes the checksum of the whole zero. |
| InternetChecksum.ChangedWordIsNoticed | inf22-1_posix_sockets_icmp-ping/main.c:33-48 | After a change of one word the buffer still verifies exactly when the word is the same or swaps the two zeros beside a nonzero rest. |
| InternetChecksum.IcmpPacket.MakePing | inf22-1_posix_sockets_icmp-ping/main.c:51-57 | The echo request has its fields, checksum 0xFDF5 with a zero upper half, and verifies. |
| Factoring.FactorOut | pyprimes/primes.c:5-31 | Error exactly for negative numbers, "Prime!" exactly for 0, 1 and primes, otherwise primes that never decrease and multiply to the input. |
| Factoring.PrimeDividesFactor | pyprimes/primes.c:15-30 | A prime that divides a product divides a factor. |
| Factoring.FactorsAreUnique | pyprimes/primes.c:15-30 | Only one list of primes in order has a given product, so the returned list is the prime factorisation. |
| Factoring.DividedOut | pyprimes/primes.c:17-24 | Dividing out a divisor keeps the product of list and rest and brings no smaller divisor back. |

## Left out

- JitCorrect.CompilerCorrect: is about texts whose code and literals fit in the 1024 words (`JitSize.FitsExactly`), numerals within `int`, and 1 to 4 arguments per call, as the program itself assumes; the overflow of larger numerals and the stack alignment at call sites are not modelled.
- JitCorrect.CompilerCorrect: the external functions are functions of their arguments that keep `r4`, `sp`, memory and the program's buffer; memory mapping and cache maintenance are not modelled.
- JitCodegen.ExpressionFuncGenerator.WriteCommandsByPtr: commands or literals that alone exceed the 1024 words, which the program writes outside the buffer, are excluded.
- JitParser.FromInfixString: reading past the bottom of the parser's stack, undefined in the program, is one error result here.
- The debug output operator, `mov_constant` and the reading of input by the test program.
- Allocator.SwapFile.constructor: the byte sizes passed to `mmap` and `munmap`, files of fewer than four bytes and of 2^31 words or more are not modelled.
- Allocator.SwapFile.MyFree: pointers into the file that are not behind a header, for which the program reads and changes payload words as if they were headers, are excluded.
- AllocatorRuns.RunsRefine: a run ends at a request of 2^32 - 1 words modulo 2^32, after which there are no headers to speak of; freeing a pointer to an empty payload at the very end of the file, which only a truncated request yields, ends the program.
- The allocator's `print_file` and `myalloc_finalize`.
- SortCompare.SortsExactly: `qsort` is any function that keeps the elements, and keeps to the comparison where the comparison does not contradict itself; the C standard does not promise even the elements otherwise. The comparison's overflow wraps, as on the machines the program runs on.
- ExternalSort.MergeSort: parts of more than 2^30 - 2 integers, whose halves have byte counts that turn negative as `int`, are excluded; opening files and failing system calls are not modelled.
- Condvar.HandoffIsSafe: the overflow of the loop variable for an upper bound of 2^63 - 1 is not modelled; the older variant `main.c` of the same program is not part of this model.
- AtomicQueue.QueueIsComplete: memory allocation, `list_destroy` and values beyond `int64_t` are not modelled; memory is sequentially consistent.
- ParallelMap.ParallelMapIsCorrect: the mapped function is any function on any type, so double arithmetic plays no part; semaphore creation does not fail.
- Spiral.WriteSpiral: cells of no columns, for which the program writes in front of the file, are excluded; `sprintf` is the decimal rendering, pointers are offsets, and `int` overflow of the file size is not modelled.
- DnsQuestion.BuildDnsQuestion: labels of more than 255 bytes, whose length wraps and which from 257 bytes on overrun the program's buffer, and encodings of 1000 bytes or more are excluded.
- DnsPacket.Parse: the reply is well formed, its names in records are two-byte pointers, and it has no more answers than the array; a malformed reply makes the program read out of bounds.
- DnsPacket.GetIp: the address is the four bytes as they lie in memory; its conversion to text is left to the library.
- Sockets, time-outs and the reading of domains and addresses.
- InternetChecksum.Checksum: bytes are read as little-endian words, as on the machines the program runs on.
- Factoring.FactorOut: the Python objects are sequences; argument parsing is left out.
- The other programs (HTTP and epoll servers, FUSE, OpenSSL, curl, dynamic loading, process and signal handling) are thin wrappers over the system; floating-point and SSE programs depend on rounding; the small finite-domain functions would only add easy members.
