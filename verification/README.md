# LudOS: a verified model of its hardest logic

LudOS is a small 32-bit x86 operating system with its own C library. This project models
the parts of it whose correctness is not evident from reading them, and proves what they
are for:

- **Pseudo-random numbers** (`rand.dfy`, over `park_miller.dfy` and `modular_powers.dfy`). `rand`,
  `srand` and `rand_r` share an overflow-free step. Every run follows the closed form 16807^n * s
  mod (2^31 - 1), and the generator has full period: 16807 is a primitive root of the modulus,
  which is proved to be prime on the way. From any state all 2^31 - 2 states are visited, each
  once, before the first one comes back.
- **Numbers as text** (`numerals.dfy`, `itoa.dfy`, `atoi.dfy`, `ftoa.dfy`). Printing yields the
  one text of a value, sign included, parsing inverts printing, and output with decimals is
  correctly rounded; without decimals it is truncated.
- **Rounding** (`ceil.dfy`, `reduction.dfy`). `ceil` edits the fields of a binary32; `floor` and
  `fmod` reduce their argument in steps of 32768. `floor` is wrong for some negative numbers, and
  the exact set is given.
- **ACPI bit algebra** (`acpi_finders.dfy`, `acpi_fields.dfy`, over `bits.dfy`). Nested
  binary-search bit finders, rounding to powers of two, bit-field encoders and packed argument
  lists.
- **The heap** (`heap_layout.dfy`, `heap_memory.dfy`, `heap_history.dfy`, `heap_search.dfy`,
  `chains.dfy`, `liballoc.dfy`). `malloc` and `free` work on doubly linked headers threaded
  through raw memory. The model keeps those headers and links as the code does, next to an
  abstract view (blocks of pages holding chunks), and proves that every call keeps the two in
  agreement. Which pointer `malloc` returns is determined: the first large enough gap of the first
  block that has one, in an order that begins at the best bet or at the root. `free` reads two
  words, the note in front of the pointer and the magic word it leads to; they stay known until
  they are written over, handed out or given back, so the model says exactly when a second `free`
  of a pointer is certain to be noticed and when it frees somebody else's chunk. Sizes are
  computed in 32-bit words; what is handed out serves the request exactly when that computation
  does not wrap.
- **Sleeping and scheduling** (`sleep_queue.dfy`, `kernel_sleep.dfy`, `scheduler.dfy`). The delta
  queue is a queue of absolute alarms over every run of its own clock, first come first served
  among equal times. The kernel queues sleepers relative to its last scheduling decision, so they
  can be woken early; the model says exactly when, and by how much. The round-robin scheduler is
  fair within a bound on the process table; without one there is no bound on the wait.
- **Checksums** (`crc32.dfy`, `crc_check.dfy`, `crc_period.dfy`). The table-driven CRC-32 computes
  the bit-serial one, which gives the standard check value and the standard residue, and detects
  every error burst of up to 32 bits; for 33 bits it no longer does. Its generator polynomial is
  primitive, so two flipped bits go unnoticed only at multiples of 2^32 - 1.
- **Output and panic screens** (`stdout.dfy`, `panic.dfy`). Line-buffered output loses and
  reorders nothing while the program runs; at exit nothing is flushed, and the model says what is
  lost then. The disassembly window marks the faulting instruction exactly once when its address
  is an instruction boundary counted from the function that was found.

Words of the machine are natural numbers with explicit bounds and wrap-around; `bits.dfy`
gives bitwise operations on them by binary digits. Code that changes things step by step is a
method or a class with the same steps; ghost fields record the history that the theorems about
whole runs speak of.

Where the code and its comments disagree, the model follows the code: the comment on `fmod`
promises a result in [0, y), but the code returns one with the sign of x; the comment on `floor`
promises the largest integer not greater than x, which fails just below a negative integer's
successor.

## Model

| member | source | states |
|---|---|---|
| ParkMiller.MultiplierOrder | libc/rand.c:37-44 | the order of 16807 modulo 2^31 - 1 is exactly 2^31 - 2, by Lucas's criterion from the prime factors of 2^31 - 2 |
| ParkMiller.ModulusIsPrime | libc/rand.c:37-44 | so 2^31 - 1 is prime |
| Rand.Schrage | libc/rand.c:45-53 | the split into quotient and remainder by 127773 computes 16807 * v mod (2^31 - 1) for every state, after at most one correction |
| Rand.DoRand | libc/rand.c:45-56 | the in-place step stays within signed 32-bit arithmetic, realises the modular recurrence, keeps the state in [1, 2^31 - 2] and returns the state less one |
| Rand.StepInverse | libc/rand.c:45-53 | multiplying by 1407677000 undoes a step |
| Rand.StepPermutes | libc/rand.c:45-53 | the step is injective and onto on the states, which never include 0 |
| Rand.IterateClosedForm | libc/rand.c:38-53 | n steps from x give 16807^n * x mod (2^31 - 1), for every n |
| Rand.IterateStaysState | libc/rand.c:47-53 | no run ever leaves the range the code's comment demands |
| Rand.FullPeriod | libc/rand.c:45-56 | every state comes back after 2^31 - 2 steps and not after any smaller positive number of steps |
| Rand.VisitsEveryState | libc/rand.c:45-56 | from any state, every state is reached exactly once within one period |
| Rand.RandR | libc/rand.c:60-80 | for any 32-bit context c, one step is made from the state x in [1, 2^31 - 2] with x - 1 congruent to c modulo 2^31 - 2; the new context is 16807 * x mod (2^31 - 1) - 1, and is what is returned |
| Rand.SeededMeaning | libc/rand.c:95-102 | the state installed less one is the seed modulo 2^31 - 2; a seed below that starts at itself plus one |
| Rand.SeedingUnique | libc/rand.c:95-102 | no other state has that property |
| Rand.StreamsAgreeIff | libc/rand.c:60-102 | two seeds give the same value at a place of their streams if and only if they differ by a multiple of 2^31 - 2; so they give the same stream, or streams that agree nowhere |
| Rand.RandRSimulatesRand | libc/rand.c:60-102 | for every seed and every number of calls, the `rand_r` context plus one is the state `rand` has after `srand` with that seed |
| Rand.Generator.constructor | libc/rand.c:83-88 | a generator that was never seeded starts at state 2, as one seeded with 1 |
| Rand.Generator.Rand | libc/rand.c:90-93 | the n-th call since seeding returns 16807^n * start mod (2^31 - 1) - 1, within [0, 0x7ffffffd] |
| Rand.Generator.Srand | libc/rand.c:95-102 | any 32-bit seed installs the one state in [1, 2^31 - 2] that is congruent to the seed plus one modulo 2^31 - 2, and restarts the sequence |
| Numerals.NumeralValue | libc/itoa.cpp:147-155 | the digits produced by repeated division evaluate to the value, in every radix from 2 to 36 |
| Numerals.CanonicalIsNumeral | libc/itoa.cpp:147-155 | a digit string without leading zero is the numeral of its value, so canonical numerals and values correspond one to one |
| Numerals.NumeralFits64 | libc/itoa.cpp:136 | no 64-bit value needs more than 64 digits |
| Itoa.PrintedMeaning | libc/itoa.cpp:136-168 | in radix 10 the text is a minus sign exactly if the value is negative, and digits whose signed value is the value; in any other radix it has no sign and its digits spell the number below 2^64 congruent to the value modulo 2^64; there are no leading zeros, and no other text does this |
| Numerals.DigitsInOrder | libc/itoa.cpp:151-154 | the digits are 0 to 9 and then a to z |
| Itoa.CollectDigits | libc/itoa.cpp:147-155 | the scratch array is filled with the numeral backwards and never beyond cell 63 |
| Itoa.CopyBackwards | libc/itoa.cpp:165-166 | the digits arrive in reading order behind what was written before; nothing else of the target changes |
| Itoa.Itoa | libc/itoa.cpp:134-169 | the target starts with that text, at most 65 characters, the rest is untouched, and the result is its length |
| Atoi.IsDigitMeaning | libc/ctype.h:11-14 | the wrapping range test accepts exactly '0' to '9' |
| Atoi.DigitRunMaximal | libc/atoi.cpp:38-43 | the characters consumed are the longest prefix of digits |
| Atoi.SignMeaning | libc/atoi.cpp:32-37 | before a text without a sign, a plus changes nothing and a minus negates |
| Atoi.Atoi | libc/atoi.cpp:29-45 | the loop computes the signed value of the maximal digit run, never overflows when that value fits, and does not read past the terminator |
| Atoi.RoundTrip | libc/atoi.cpp:29-45 | what `itoa` wrote in radix 10, followed by any non-digit and any text, parses back to the same value without overflow |
| Ftoa.ReverseRange | libc/itoa.cpp:100-106 | the loop that swaps from both ends reverses the range in place and leaves the rest of the buffer alone |
| Ftoa.WriteReversed | libc/itoa.cpp:90-95 | the cells written hold the integer part's numeral backwards |
| Ftoa.WriteDecimals | libc/itoa.cpp:118-125 | p turns of multiply, truncate and subtract write the first p decimals of the fraction, zero padded |
| Ftoa.ChoosePrecision | libc/itoa.cpp:53-73 | a precision from 0 to 10 is kept and a larger one becomes 10; for a negative one, the largest number of decimals up to six with which the magnitude has at most six digits in all, and none if even one decimal is too many |
| Ftoa.Ftoa | libc/itoa.cpp:45-132 | the buffer starts with that text of f, with the precision chosen for its magnitude; nothing behind it changes |
| Ftoa.PrintoutMeaning | libc/itoa.cpp:75-126 | read as one number, the digits are within half a unit in the last place of the magnitude, or truncated if there are no decimals, with a canonical integer part |
| Ftoa.PrintoutSpells | libc/itoa.cpp:45-132 | the text is a minus sign exactly if f is negative, an integer part without leading zeros, a point and p digits unless p is 0, and the terminator; its digits read as one number are the magnitude in units of 10^-p, rounded half up, or truncated if p is 0 |
| Ftoa.SpelledOneWay | libc/itoa.cpp:45-132 | no other text spells f with p decimals |
| Ftoa.IntegerPartParsed | libc/atoi.cpp:29-45 | `atoi` reads the signed integer part back from it |
| Ftoa.NoDecimalsTruncates | libc/itoa.cpp:75-81 | with no decimals the code truncates: the result is the rounded one if and only if the fraction is below one half |
| Ftoa.TruncatedExample | libc/itoa.cpp:75-81 | one half printed without decimals gives 0 where rounding gives 1 |
| Ceil.ExtractFields | libc/math.c:381-385 | the shifts and masks read sign, exponent and mantissa of a binary32 |
| Ceil.Assemble | libc/math.c:431-432 | putting fields together and reading them again gives the same fields |
| Ceil.CarryIffOnes | libc/math.c:412-423 | the mantissa overflows if and only if all its integer bits are ones |
| Ceil.RoundedUp | libc/math.c:408-427 | for a positive fraction, the edited fields denote the least integer above, with and without the carry |
| Ceil.NegativeTruncated | libc/math.c:426-427 | for a negative fraction, clearing the fraction bits gives the least integer above |
| Ceil.Ceil | libc/math.c:376-435 | for every binary32 below 2^32 in magnitude, the result is an integer at least x and less than x + 1 |
| Reduction.Floor | libc/math.c:350-367 | the two reduction loops end and do not change what the final truncation yields, for every real |
| Reduction.FloorCorrectIff | libc/math.c:364-366 | the code returns the floor if and only if x is not negative, or an integer, or at least 1e-10 below the next integer; otherwise it is one too large |
| Reduction.FloorWrongExample | libc/math.c:364-366 | a number just below 0 whose computed floor is 0 |
| Reduction.Fmod | libc/math.c:198-216 | the loops end and the result is x - trunc(x / y) * y for every x and every y other than 0 |
| Reduction.FmodMeaning | libc/math.c:194-216 | the result differs from x by an integral multiple of y, is smaller than y in magnitude and never has the opposite sign of x |
| Reduction.FmodUnique | libc/math.c:194-216 | no other multiple of y and no other remainder have those properties |
| Reduction.CommentHoldsIff | libc/math.c:194-197 | the result lies in [0, y), as the comment has it, if and only if y is positive and x is not negative or an integral multiple of y |
| Reduction.CommentWrongExample | libc/math.c:194-197 | -1 by 2 leaves -1 |
| AcpiFinders.Log2Bounds | external/acpica/acmacros.h:379-394 | the reference logarithm is the position of the highest set bit: 2^k <= a < 2^(k + 1) |
| AcpiFinders.TrailingZerosMeaning | external/acpica/acmacros.h:401-416 | the reference count is the position of the lowest set bit: the greatest power of two dividing a |
| AcpiFinders.FindLastBit64Correct | external/acpica/acmacros.h:379-399 | six levels of halving give the logarithm plus one for every 64-bit value, and 0 exactly for 0 |
| AcpiFinders.FindFirstBit64Correct | external/acpica/acmacros.h:401-421 | six levels of halving give the number of trailing zeros plus one for every 64-bit value, and 0 exactly for 0 |
| AcpiFinders.FindLastBit32Correct | external/acpica/acmacros.h:389-398 | the same for the 32-bit finder |
| AcpiFinders.RoundUpIsLeast | external/acpica/acmacros.h:435-436 | from 1 to 2^31 the result is the least power of two at or above a |
| AcpiFinders.RoundUpOverflows | external/acpica/acmacros.h:435-436 | above 2^31, and for 0, the macro yields 0 |
| AcpiFinders.RoundUpCorrectIff | external/acpica/acmacros.h:435-436 | the result is the least power of two at or above a if and only if 1 <= a <= 2^31 |
| AcpiFinders.RoundDownIsGreatest | external/acpica/acmacros.h:437-438 | for every non-zero a the result is the greatest power of two at or below a |
| AcpiFinders.PowerOfTwoTest | external/acpica/acmacros.h:439-440 | a non-zero a shares no bit with a - 1 if and only if it is a power of two |
| AcpiFinders.PowerOfTwoTestIff | external/acpica/acmacros.h:439-440 | for every 32-bit word the test accepts exactly the powers of two and 0, which is none |
| AcpiFinders.RoundingsBracket | external/acpica/acmacros.h:435-440 | both roundings agree exactly on powers of two and otherwise differ by a factor of two |
| AcpiFields.Dword.Set | external/acpica/acmacros.h:479-480 | setting a field in place adds the field's bits of the value and changes no other bit |
| AcpiFields.EncodeBit | external/acpica/acmacros.h:479-480 | a bit of an encoded word is set if and only if it was set before or some field writes it |
| AcpiFields.EncodeThenGet | external/acpica/acmacros.h:476-480 | for any number of pairwise disjoint fields, reading a field after encoding all of them gives its masked value |
| AcpiFields.EncodeOrderFree | external/acpica/acmacros.h:479-480 | the order, and repetition, of the writes does not matter |
| AcpiFields.DecodeThenEncode | external/acpica/acmacros.h:476-480 | for fields that tile the low n bits, decoding and encoding again keeps exactly those bits |
| AcpiFields.PldEncodeThenDecode | external/acpica/acbuffer.h:273-360 | every field of the five `_PLD` dwords survives encoding, in whatever order the fields are set |
| AcpiFields.PldDecodeThenEncode | external/acpica/acbuffer.h:273-360 | decoding and encoding a `_PLD` dword is the identity for dwords 1, 2, 3 and 5, and drops only the unused bits of dword 4 |
| AcpiFields.GetBitsArithmetic | external/acpica/acmacros.h:476-477 | a getter divides by 2^position and takes the remainder by 2^width |
| AcpiFields.Dword1Fields | external/acpica/acbuffer.h:273-286 | the getters of the first dword by arithmetic, such as ignore-color as word / 128 % 2 |
| AcpiFields.Dword2Fields | external/acpica/acbuffer.h:290-294 | those of the second |
| AcpiFields.Dword3Fields | external/acpica/acbuffer.h:298-314 | the first six of the third |
| AcpiFields.Dword3MoreFields | external/acpica/acbuffer.h:316-329 | the other five of the third |
| AcpiFields.Dword4Fields | external/acpica/acbuffer.h:333-352 | those of the fourth |
| AcpiFields.Dword5Fields | external/acpica/acbuffer.h:356-360 | those of the fifth |
| AcpiFields.WalkPack | external/acpica/acmacros.h:536-559 | walking a packed list of codes of any width returns the codes in order and then zeros |
| AcpiFields.PackFits | external/acpica/acmacros.h:536-542 | n codes of w bits occupy at most n * w bits, so shifting loses none |
| AcpiFields.PackArithmetic | external/acpica/acmacros.h:536-556 | the parser's list is a number in radix 32 whose digits are the codes, the first one lowest |
| AcpiFields.WalkArithmetic | external/acpica/acmacros.h:558-559 | one step of the walk takes the lowest digit and drops it |
| AcpiFields.ArgListsWalk | external/acpica/acmacros.h:536-559 | up to six argument codes come back in order from the parser's list and reversed from the interpreter's, both within 30 bits |
| HeapLayout.LiveChunksDisjoint | libc/liballoc/liballoc.c:383-548 | in a well-formed heap any two live chunks, headers included, occupy disjoint bytes |
| HeapLayout.CallerBytesSafe | libc/liballoc/liballoc.c:40-52 | the bytes a caller may use are aligned, inside one block, and overlap no header and no other chunk |
| HeapLayout.UserDetermines | libc/liballoc/liballoc.c:55-57 | a user pointer belongs to only one live chunk |
| HeapLayout.GapAtMostFree | libc/liballoc/liballoc.c:348-352 | no gap of a block is larger than its size less its usage, so case 1 never skips a block that could serve |
| HeapLayout.PagesMeaning | libc/liballoc/liballoc.c:204-217 | unless the sum wraps, the pages hold the request and both headers, and no smaller number from 16 on does |
| HeapLayout.ServesIffFits | libc/liballoc/liballoc.c:264-574 | a chunk put into any gap that passes the code's 32-bit size test, or into a new block, has room for the caller's bytes and stays in its block if and only if request, alignment, alignment word and both headers together stay below 2^32 |
| HeapLayout.WrappedRequests | libc/liballoc/liballoc.c:199-217 | two requests that pass the test in a new block and are not served: one gets a body of 4 bytes, the other runs past the end of its block |
| HeapMemory.PlaceOk | libc/liballoc/liballoc.c:383-548 | writing a header into a gap and linking it in turns the stored heap into the stored form of the larger view and disturbs no other block; words under the new header, its note or its caller's bytes are no longer known, and every header whose known magic word marks it as live heads a live chunk |
| HeapMemory.TakeOk | libc/liballoc/liballoc.c:679-690 | unlinking a header and marking it dead stores the smaller view |
| HeapMemory.AddBlockOk | libc/liballoc/liballoc.c:231-236 | linking a fresh block last keeps the heap well formed |
| HeapMemory.DropBlockStored | libc/liballoc/liballoc.c:698-704 | unlinking a block stores the view without it, and no word in its pages stays known |
| HeapHistory.DeadIff | libc/liballoc/liballoc.c:684 | after any history, a header is certain to read as dead if and only if a chunk there was freed and since then its magic word was neither written over nor handed out nor given back |
| HeapHistory.NotedIff | libc/liballoc/liballoc.c:50-57 | after any history, the note in front of a pointer is certain to lead to an address if and only if a chunk there wrote it and it was neither written over nor handed out nor given back since |
| HeapHistory.SecondFreeNoticedIff | libc/liballoc/liballoc.c:615-669 | whatever happened since the first `free`, with no chunk placed at the same address, the second is certain to find the dead mark if and only if since then no byte of the magic word or the note was written over, handed out or given back |
| HeapHistory.PartlyCovered | libc/liballoc/liballoc.c:615-669 | a run in which a new chunk ends inside a dead header but spares its magic word and note: a second `free` is noticed |
| HeapHistory.ReleasedUnnoticed | libc/liballoc/liballoc.c:696-704 | after freeing the only chunk of a block neither its magic word nor its note is there any more, so a second `free` is not noticed |
| HeapHistory.ReusedLooksDead | libc/liballoc/liballoc.c:615-669 | a chunk placed at the same address and freed in turn makes the old pointer look dead again |
| HeapHistory.TakenOver | libc/liballoc/liballoc.c:615-623 | a chunk placed at the same address, too small to reach the old note, takes over the header the old pointer leads to: a second `free` frees that chunk |
| HeapHistory.TakenOverExample | libc/liballoc/liballoc.c:615-623 | a run in which the old pointer of 10 bytes aligned to 256 leads to the header of a live chunk of 1 byte |
| Liballoc.CountPages | libc/liballoc/liballoc.c:204-217 | at least 16 pages and, unless the sum wraps, the least such number that holds the request and both headers; 16 if it wraps |
| Liballoc.Align | libc/liballoc/liballoc.c:41-52 | the least address after the recorded padding that is a multiple of the alignment |
| Liballoc.Heap.constructor | libc/liballoc/liballoc.c:100-102 | the heap starts empty and well formed |
| Liballoc.Heap.AllocateNewPage | libc/liballoc/liballoc.c:199-249 | the header of a granted block is written; with no grant nothing changes |
| Liballoc.Heap.PlaceFirst | libc/liballoc/liballoc.c:383-414 | case 2: the first chunk of a block is placed right behind its header and the heap stays consistent |
| Liballoc.Heap.PlaceFront | libc/liballoc/liballoc.c:418-451 | case 3: a chunk squeezed in before the first one |
| Liballoc.Heap.PlaceLast | libc/liballoc/liballoc.c:464-500 | case 4.1: a chunk behind the last one |
| Liballoc.Heap.PlaceBetween | libc/liballoc/liballoc.c:504-543 | case 4.2: a chunk between two neighbours |
| Liballoc.Heap.TryBlock | libc/liballoc/liballoc.c:418-546 | a block in use takes the chunk at the start of its first gap that passes the size test, or no gap passes it |
| Liballoc.Heap.Grow | libc/liballoc/liballoc.c:568-571 | a new block is linked behind the last one |
| Liballoc.Heap.StartHeap | libc/liballoc/liballoc.c:283-308 | the first block of an empty heap |
| Liballoc.Heap.Advance | libc/liballoc/liballoc.c:358-376 | the search moves to the next block, starts over at the root once if it began at the best bet, and only then asks the system |
| Liballoc.Heap.Start | libc/liballoc/liballoc.c:320-333 | the search begins at the best bet if that has strictly more bytes free than a body and its header need, and else at the root |
| Liballoc.Heap.Consider | libc/liballoc/liballoc.c:337-345 | the best bet moves to a block with strictly more bytes free |
| Liballoc.Heap.Search | libc/liballoc/liballoc.c:335-578 | for every size the search over all blocks, in the given order, ends with the first gap of the first block that has a large enough one, with a new block only if none has, and with null only if the system has no memory either; the best bet it leaves is the first of the blocks seen with the most bytes free, or the old one |
| HeapSearch.OrderCovers | libc/liballoc/liballoc.c:335-376 | in either order every block has its turn |
| HeapSearch.ChosenUnique | libc/liballoc/liballoc.c:335-578 | at most one block and gap is the first that fits |
| HeapSearch.BestOfMeaning | libc/liballoc/liballoc.c:337-345 | after blocks were looked at, the best bet is the old one if none has more bytes free, and else the first of those with the most |
| HeapSearch.FreeBytesAreGaps | libc/liballoc/liballoc.c:337 | the bytes a block counts as free are exactly the bytes in its gaps |
| HeapSearch.AnswerUnique | libc/liballoc/liballoc.c:251-592 | state, request and the system's answers determine the pointer, the block, the gap and the next best bet |
| Liballoc.Heap.Obtain | libc/liballoc/liballoc.c:283-578 | for a size that is not 0, the same, an empty heap first getting a block if the system has one |
| Liballoc.Heap.MallocAlign | libc/liballoc/liballoc.c:251-592 | for every 32-bit request and every power-of-two alignment, the pointer is the answer that the state of the heap determines, a size that wraps to 0 standing for malloc(1); what is handed out serves the request if and only if the sizes do not wrap; if they do not, the blocks change only by that one chunk, and failure means that the system had no memory and no gap was large enough |
| Liballoc.Heap.Malloc | libc/liballoc/liballoc.c:594-597 | the same for 4-byte alignment, also when it stands in for a request whose size wraps to 0 |
| Liballoc.Heap.TakeOut | libc/liballoc/liballoc.c:679-690 | the chunk leaves its block, the totals follow, and the heap stays consistent |
| Liballoc.Heap.Release | libc/liballoc/liballoc.c:694-705 | an emptied block leaves the list, root and best bet no longer point to it, its pages are given back, and no note in them stays readable |
| Liballoc.Heap.Reconsider | libc/liballoc/liballoc.c:708-714 | the block that lost a chunk becomes the best bet if there is one and it now has more bytes free, compared as signed numbers |
| Liballoc.Heap.LivePointerLeadsBack | libc/liballoc/liballoc.c:615-623 | the padding note in front of any live pointer leads to its own header, which carries the magic number |
| Liballoc.Heap.ReadableIsHeld | libc/liballoc/liballoc.c:615-623 | the two words `free` reads lie in pages that the heap holds |
| Liballoc.Heap.FoundDeadIff | libc/liballoc/liballoc.c:615-669 | for every pointer and every history, `free` is certain to take the pointer for that of a dead chunk if and only if the history left such a note and such a mark |
| Liballoc.Heap.FoundLiveIff | libc/liballoc/liballoc.c:615-679 | for every pointer and every history, `free` is certain to take the pointer for that of a live chunk, its own or another, if and only if a live chunk starts where some chunk's surviving note leads |
| Liballoc.Heap.SecondFreeNoticed | libc/liballoc/liballoc.c:599-669 | the same condition for a second `free` of the same chunk, on the heap itself |
| Liballoc.Heap.Free | libc/liballoc/liballoc.c:599-725 | for every pointer whose two words are there: exactly the live chunk whose header it leads to stops being live, whoever it belongs to, and nothing else in the list of blocks changes, except that an emptied block leaves it; the best bet is cleared, moved or kept as the code says; afterwards the pointer leads to a dead header if the block is still held, and to nothing if it went back; a null pointer or a pointer to a dead header changes nothing |
| Liballoc.Heap.AllGivenBack | libc/liballoc/liballoc.c:694-705 | once no chunk is live, after any history, no block is kept and all counters are zero |
| SleepQueue.DueMeaning | kern/utils/deltaqueue.hpp:53-70 | the alarms taken off the front are exactly those that are due |
| SleepQueue.ScheduleMeaning | kern/utils/deltaqueue.hpp:73-96 | a new alarm stands behind exactly those that are due no later, and the others keep their order |
| SleepQueue.DeltaQueue.Decrease | kern/utils/deltaqueue.hpp:50-71 | in terms of absolute times, exactly the due alarms are woken, in order, and the pending ones keep their times |
| SleepQueue.DeltaQueue.Insert | kern/utils/deltaqueue.hpp:73-96 | in terms of absolute times, the alarm is queued behind all that are due no later, and no other alarm moves |
| SleepQueue.RunSound | kern/utils/deltaqueue.hpp:50-96 | over every sequence of sleeps and ticks, in the clock that counts the ticks: nobody is woken early or later than the first tick at or after their time, wake-ups come in order of time and for equal times in the order of the requests, and every sleeper is either queued once or woken once |
| SleepQueue.DeltaQueue.EveryUseIsSound | kern/utils/deltaqueue.hpp:50-96 | every delta queue reached by any history of calls is in the state those runs prescribe |
| KernelSleep.Sleepers.UpdateSleepQueue | kern/tasking/scheduler.cpp:69-83 | a scheduling decision advances the queue to its own time, whatever the time of the last one |
| KernelSleep.Sleepers.Nanosleep | kern/syscalls/Linux/time/sleep.cpp:49-54 | going to sleep queues the process and takes a decision; the kernel's run is extended by both events with their times |
| KernelSleep.QueueInStep | kern/tasking/scheduler.cpp:63-83 | in every run the queue's clock is the time of the last decision, and every alarm is at that clock's reading when it was set plus the duration |
| KernelSleep.WakingTime | kern/tasking/scheduler.cpp:69-83 | in every run a sleeper is woken by the first decision at or after the last decision before it asked plus its duration: never before it asked, and early by at most the time since that decision |
| KernelSleep.EarlyIff | kern/syscalls/Linux/time/sleep.cpp:49-54 | some continuation wakes a sleeper before its duration has passed if and only if time has passed since the last decision and the duration is not 0 |
| KernelSleep.WakesEarly | kern/syscalls/Linux/time/sleep.cpp:49-54 | that continuation is a single decision, at once if the lag is as long as the duration |
| KernelSleep.NotSleptAtAll | kern/syscalls/Linux/time/sleep.cpp:49-54 | ten ticks after the last decision, a process that asks for five is woken after none |
| Scheduler.FirstReadyAfter | kern/tasking/scheduler.cpp:92-97 | the loop ends at the first ready process after the given one in cyclic order |
| Scheduler.SearchEndsIff | kern/tasking/scheduler.cpp:94-97 | the search ends if and only if some process is ready |
| Scheduler.FindNextPid | kern/tasking/scheduler.cpp:90-110 | the choice is the first ready process after the current one other than the idle task, and the idle task if and only if nothing else is ready |
| Scheduler.ChoiceUnique | kern/tasking/scheduler.cpp:90-110 | the specification admits only one choice |
| Scheduler.ComesNearer | kern/tasking/scheduler.cpp:94-107 | each switch brings a waiting ready process strictly nearer |
| Scheduler.Fairness | kern/tasking/scheduler.cpp:90-137 | in every run, with processes created and tables growing up to a given length, a process that stays ready is scheduled within as many switches as its cyclic distance plus the slots added, whatever the others do |
| Scheduler.Overtaken | kern/tasking/process.cpp:304-313 | if a process is created before every switch, a ready process can be passed over for any number of switches |
| Scheduler.OvertakenExample | kern/tasking/scheduler.cpp:94-97 | a process two switches away that has not run after two switches |
| Crc32.TableStep | kern/utils/crc32.hpp:73-76 | one table lookup does what feeding the eight bits of the byte one at a time does |
| Crc32.ByteChecksum | kern/utils/crc32.hpp:43-51 | a table entry is eight shifts of its index |
| Crc32.GenerateTable | kern/utils/crc32.hpp:35-60 | all 256 entries are those of the bit-serial register |
| Crc32.Crc | kern/utils/crc32.hpp:62-77 | for every file the table-driven loop yields the bit-serial checksum of its bits |
| CrcCheck.NothingToCheck | kern/utils/crc32.hpp:65-77 | the checksum of nothing is 0 |
| CrcCheck.Residue | kern/utils/crc32.hpp:62-77 | any message followed by its own checksum has the checksum 0x2144DF1C |
| CrcCheck.CheckValue | kern/utils/crc32.hpp:62-77 | the checksum of the nine bytes "123456789" is 0xCBF43926 |
| Crc32.BurstDetected | kern/utils/crc32.hpp:62-77 | any change confined to 32 consecutive bits, anywhere in a message of any length, changes the checksum |
| Crc32.FileBurstDetected | kern/utils/crc32.hpp:62-77 | two different files of one length that agree outside 32 consecutive bits have different checksums |
| Crc32.GeneratorUndetected | kern/utils/crc32.hpp:62-77 | the bound is the best possible: in every message, any 33 consecutive bits can be changed without changing the checksum |
| CrcPeriod.SquarePower | kern/utils/crc32.hpp:37-48 | squaring doubles the exponent of x modulo the generator, which lets huge exponents be evaluated |
| CrcPeriod.ReturnsIff | kern/utils/crc32.hpp:37-48 | x^n is 1 modulo the generator if and only if n is a multiple of 2^32 - 1: the polynomial is primitive |
| CrcPeriod.TwoBitsUndetectedIff | kern/utils/crc32.hpp:62-77 | in any message, flipping two bits leaves the checksum unchanged if and only if their distance is a multiple of 2^32 - 1 |
| CrcPeriod.TwoBitsDetected | kern/utils/crc32.hpp:62-77 | so two flipped bits closer than that are always detected |
| Stdout.ChunksMeaning | userland/init.cpp:36-47 | the specified pieces and the rest make up the text; each piece has 1 to 1024 characters, a newline only at its end, and exactly 1024 if it does not end in one |
| Stdout.CutUnique | userland/init.cpp:42-47 | there is only one way to cut a text like that |
| Stdout.RestLength | userland/init.cpp:42-47 | what waits in the buffer is as long as the text after the last newline, modulo 1024 |
| Stdout.AllWrittenIff | userland/init.cpp:58-61 | all of a text has been written at exit, where nothing is flushed, if and only if the text after its last newline fills whole buffers |
| Stdout.LostExample | userland/init.cpp:58-61 | the text "a" is lost at exit |
| Stdout.Writer.constructor | userland/init.cpp:33-34 | nothing is written or waiting at first |
| Stdout.Writer.FlushBuffer | userland/init.cpp:36-40 | the waiting characters are written as one piece |
| Stdout.Writer.WriteCallback | userland/init.cpp:42-47 | after any run of calls, the pieces written and the characters waiting are exactly that cut of everything sent |
| Panic.GetFunction | kern/elf/symbol_table.hpp:51-62 | the last symbol strictly before the address, or none if there is no symbol between the kernel base and the address; it is the function the address lies in if and only if the address is not itself a kernel symbol |
| Panic.EntryExample | kern/elf/symbol_table.hpp:51-62 | at the entry of a function the one before it is found, which is not the enclosing one |
| Panic.NextIns | kern/debug/dissasembly.hpp:43-52 | n instructions further on |
| Panic.Align | kern/panic.cpp:142-147 | the loop ends at the first boundary from which three instructions reach the fault, and never passes the fault |
| Panic.OpensBefore | kern/panic.cpp:142-147 | if the fault is the k-th boundary of the function, the window opens at boundary k - 3, or at the start |
| Panic.MarksBoundary | kern/panic.cpp:150-166 | then the seven lines mark the fault exactly once, on line min(k, 3) |
| Panic.MarksNothingElse | kern/panic.cpp:150-166 | a fault that is no boundary of the function is not marked at all |
| Panic.MidInstruction | kern/panic.cpp:150-166 | with instructions of two bytes, an address in the middle of one is no boundary |
| Panic.PrintDisassembly | kern/panic.cpp:120-167 | for every symbol table, every decoder and every address: nothing if the address is unmapped, three lines from it if no function is known, and else seven lines from the boundary found; each line follows the one above by one instruction, and the arrow marks exactly the fault, if it is shown at all |
| Panic.TraceOffset | kern/panic.cpp:62-85 | the frame after the first one that returns 31 bytes into an interrupt stub or is `panic`, or the whole trace if there is none |
| Panic.PrintStackSymbols | kern/panic.cpp:87-118 | from there on, frames are shown in order, numbered from 1, up to `kmain` exclusively or to the end, each by its symbol, or without one as user space below 0xC0000000 and as unknown above |

## Left out

- Rand: the `USE_WEAK_SEEDING` variant, which is not compiled by default.
- Itoa.Itoa: the least 64-bit integer in radix 10, whose negation overflows, and radices outside 2 to 36.
- Atoi.Atoi: texts whose digit run does not fit 64 bits, where the source overflows.
- Ftoa.Ftoa: rounding errors of binary64 arithmetic; its doubles are exact reals. Magnitudes beyond a 32-bit `long` are excluded.
- Ceil.Ceil: doubles that are no binary32 value, magnitudes from 2^32 on, infinities and not-a-number. The shift of a negative sign word is taken as the sign bit.
- Reduction.Floor: rounding errors of binary64 arithmetic; the argument is an exact real.
- Reduction.Fmod: rounding errors of binary64 arithmetic; the arguments are exact reals.
- The other functions of `libc/math.c`: polynomial approximations, and code that overlays doubles with words in a layout that does not match the target.
- Liballoc.Heap.MallocAlign: alignments that are no power of two, and the state of the heap after it handed out a chunk that does not serve its request; a pointer that would lie past the top of the address space is not wrapped.
- Liballoc.Heap.Free: pointers whose note or magic word was written over, handed out or given back; what the source then reads is not its own. The diagnostics are not modelled.
- HeapHistory.SecondFreeNoticedIff: other bytes that by chance have the value of the mark; only words still as the allocator left them count as known.
- The system's page allocator: a parameter `grant`, a fresh range of pages or 0. What the pages hold, the locks, the log output and the warning, error and peak counters are not modelled; nor are `calloc` and `realloc`.
- SleepQueue.DeltaQueue.Insert: 64-bit overflow of tick counts; times are unbounded.
- KernelSleep.Sleepers.Nanosleep: the checks of the arguments, the conversion to ticks, and entries that outlive their sleeper: a semaphore that wakes a process before its timeout and a process that is killed both leave theirs in the queue, where the callback finds no process or the next owner of the number.
- Scheduler.FindNextPid: a table in which nothing is ready, not even the idle task; the source loops for ever then.
- Scheduler.Fairness: the context switch itself, zombies and semaphores; only the tables found at each switch matter to it.
- Crc32.Crc: the table is generated at each call and not cached.
- Stdout.Writer.FlushBuffer: a `write` system call that fails or is short.
- Panic.PrintDisassembly: the text of an instruction, the disassembler itself (any function from addresses to sizes), and wrap-around at the top of the address space.
- Panic.PrintStackSymbols: the printed text and its line breaks.
- File systems, disk drivers and caches, device drivers, ELF loading, the shell, user-space threads, and the rest of ACPICA.
