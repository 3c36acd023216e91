# TriOS library core, modelled and proved in Dafny

The `libs/` directory of the TriOS labs holds the code that the kernel's other parts stand on: the
priority queue of the scheduler, a pseudo-random generator, a formatter and a number parser, memory
and string routines, the ring list, atomic bit operations and a hash. This project models that code
(the lab7 copies, with the scheduler's use of the heap from lab8) and proves what it is for, for all inputs and over whole runs. Integers are
unbounded in Dafny; where C's widths matter they are written out (48-bit and 64-bit wrapping in the
generator, `int` and `long` wrap-around in the formatter and the parser, 32-bit words in the hash).
The target has 64-bit `long`, pointers and `size_t`, and unsigned `char`.

| file | models |
|---|---|
| `SkewTree.dfy`, `SkewCost.dfy`, `SkewHeap.dfy`, `Stride.dfy`, `StrideHeap.dfy` | the skew heap: what its operations mean as functions on trees, what they cost, the in-place operations on linked entries, and the stride scheduler's use of it |
| `Rand.dfy`, `RandPeriod.dfy`, `RandCount.dfy` | the generator, its period, and how often each value comes |
| `CString.dfy`, `Numerals.dfy` | C strings, fixed-width integers, positional numerals |
| `Format.dfy`, `Directives.dfy`, `Specs.dfy`, `Buffer.dfy`, `Printer.dfy`, `Snprintf.dfy` | formatted printing: the text a format prints, the grammar of directives, formats of one directive and their texts, the bounded buffer, the machine itself |
| `Strtol.dfy`, `RoundTrip.dfy` | number parsing, and printing followed by parsing |
| `Memory.dfy`, `StrCmp.dfy` | overlapping copies; the three comparisons |
| `ListRing.dfy` | the circular doubly linked list |
| `Bits.dfy` | atomic bit operations on an array of words |
| `Hash.dfy`, `Arith.dfy`, `Counting.dfy` | the hash; powers of two and counting used by several files |

## How the model reads the source

- **Skew heap.** The comparison callback is a function on entries that does not look at the links.
  The code tests its answer for -1 and nothing else. Heap order is stated in terms of that test, and
  the proofs ask that "answers -1" be a strict weak order on the entries involved; merging keeps this
  order exactly then (`MergeKeepsOrderIff`). Whether it is the order the caller meant is another
  question: for a callback whose signs form a total preorder, heaps stay in the order of the signs,
  and every run leaves a least entry at the root, exactly when every negative answer is -1
  (`MergeKeepsSignOrderIff`, `RunsServeLeastIff`). Then "may precede" means an answer of at most 0
  (`SignOrder`). The customary "return a - b" fails as soon as two entries differ by more than one
  (`DifferenceServesIff`). The stride scheduler's comparison takes the sign of a wrapping 32-bit
  difference, which is an order exactly on strides that fit into half the circle
  (`OrderedIffHalfCircle`). In `Stride` a process is a value with the unbounded sum of its charges, of
  which the stride stored is the low 32 bits. Runs have turns, arrivals and departures; if everybody
  who arrives has been charged within some `w` of those who wait, all runs keep the least charged at
  the root exactly if `w` is below 2^31 (`RunsKeepLeastAtRootIff`), and keep all charges within `w`
  of each other exactly if `w` is also at least one full charge (`RunsKeepFairIff`). The source gives
  a new process no stride to start with, so that nothing keeps a new arrival within that bound. In
  `StrideHeap` the same runs work on linked entries, with a table of the processes that own them: the
  picked process is charged while it is still at the root, which makes no difference, because taking
  the root out compares only what is below it. What each has been charged is counted there
  (`RunCharges`), and under the same bound everybody who stays is picked in proportion to its priority,
  but for at most `2w` in charges (`SharesAreProportional`). `calls` results are ghost counters of the calls of
  merge actually made.
- **Generator.** `do_div` does not parenthesise its divisor, so `RAND_MAX + 1` divides by
  `RAND_MAX` and adds one to the remainder. The comment promises values from 0 to `RAND_MAX`; 0 is
  never returned (`OutputCounts`).
- **Formatter.** Characters go to a callback; here it is the one that fills a buffer, and a ghost
  field records every character handed over, which is what an unbounded callback would have
  received. Arguments are a list, each with the type it is passed as; `Render` is undefined where
  an argument is missing or of the wrong type, and for `%e` of the smallest int. Such calls are
  excluded by preconditions, and so is printing in base 1: the comment allows it, no caller uses it,
  and above 0 it would never end. The
  one C function `vprintfmt` with its gotos is cut into several methods: the literal loop, the loop
  behind `reswitch`, the end of a directive, and the conversions. The comment says that padding is
  for numbers only; the code pads strings as well, and the model follows it. A precision of zero
  cannot be written with digits, because '0' is always taken as a flag. With the '-' flag numbers
  are padded on the left with '-'; the round trips say exactly when such a text reads back. They hold
  for every format of a single directive: any flags in any order, width and precision by number or by
  star, any number of `l`. A negative width from a star counts as none and does not set the '-' flag.
- **Parser.** Accumulation wraps in 64 bits. The comment differs from the code twice: it discards
  white space (taken here as C's: space, tab, newline, vertical tab, form feed, return) where the code
  skips spaces and tabs only, and in base 16 it allows a prefix "0X" where the code accepts "0x" only.
  `DocumentedIff` says exactly when this matters, for values modulo 2^64 and for the values themselves.
  In base 0 the comment names "0x" only, as the code has it. A prefix with no digit behind it counts
  as read, in the documented reading as in the code.
- **Bits.** A word is the sequence of its 64 bits. An atomic instruction is one indivisible
  read-modify-write, so what several threads do is one sequence of operations; results hold for
  every sequence. `test_bit` shifts the first word only; a shift takes the low six bits of its
  amount, as the RV64I shift instructions do.

## Model

| member | source | states |
|---|---|---|
| SkewTree.MergeElems | lab7/libs/skew_heap.h:29-59 | merging keeps every entry of both heaps and adds none |
| SkewTree.MergeHeapOrdered | lab7/libs/skew_heap.h:29-59 | merging two ordered heaps gives an ordered heap, given a strict weak order |
| SkewTree.MergeKeepsOrderIff | lab7/libs/skew_heap.h:37 | all merges over a set of entries keep the order that the test for -1 describes if and only if "answers -1" is a strict weak order there |
| SkewTree.ThreeWayIsStrictWeak | lab7/libs/skew_heap.h:10-37 | a total preorder answering -1, 0, 1 is such a comparison, and its order is that of the answers |
| SkewTree.SignOrder | lab7/libs/skew_heap.h:37 | where signs form a total preorder and every negative answer is -1, "answers -1" is a strict weak order, and an entry may precede another exactly if the answer on them is not positive |
| SkewTree.MergeKeepsSignOrderIff | lab7/libs/skew_heap.h:29-59 | for signs that form a total preorder: the merges made by the code keep all heaps in the order of the signs if and only if every negative answer is -1 |
| SkewTree.RunsServeLeastIff | lab7/libs/skew_heap.h:29-85 | for such signs: after every run from empty the root is an entry than which the callback puts none first, if and only if every negative answer is -1 |
| SkewTree.DifferenceServesIff | lab7/libs/skew_heap.h:37 | a comparison returning differences serves the least entry in every run if and only if no two entries differ by more than one |
| SkewTree.DifferenceBreaksOrder | lab7/libs/skew_heap.h:37 | with it, queueing 1 and then 5 leaves 5 at the root |
| SkewTree.RootIsMinimum | lab7/libs/skew_heap.h:29-59 | the root of an ordered heap is a minimum of all its entries |
| SkewTree.InsertRoot | lab7/libs/skew_heap.h:37-67 | a new entry comes out on top, also of a root it ties with, unless the answer on the root and it is -1 |
| SkewTree.RemoveElems | lab7/libs/skew_heap.h:69-85 | removal takes out exactly the one entry |
| SkewTree.RemoveHeapOrdered | lab7/libs/skew_heap.h:69-85 | removing any entry, root or not, keeps the heap ordered |
| SkewTree.StepElems | lab7/libs/skew_heap.h:61-85 | one operation adds exactly its entry to the heap, or takes exactly its entry out |
| SkewTree.RunRefinesQueue | lab7/libs/skew_heap.h:61-85 | over every run of insertions and removals of any entries the heap holds exactly what a multiset queue holds, and stays ordered |
| SkewTree.RunRootIsMinimum | lab7/libs/skew_heap.h:61-85 | after every run from empty the root is a minimum of the queue, and there is none only if the queue is empty |
| SkewTree.DrainSorts | lab7/libs/skew_heap.h:69-85 | taking the root again and again yields every entry once, in non-decreasing order |
| SkewCost.MergeAmortised | lab7/libs/skew_heap.h:29-59 | calls of one merge plus the change in right-heavy nodes is at most log(a+1) + log(b+1) + log(a+b+1) + 1 |
| SkewCost.CallsFollowSpines | lab7/libs/skew_heap.h:29-59 | every call but the last takes an entry off a right spine, and the last finds one spine used up: the calls are between the shorter and both together, plus one |
| SkewCost.RemoveAmortised | lab7/libs/skew_heap.h:69-85 | removing an arbitrary entry of at most n costs at most 4 log(n+1) + 1 amortised |
| SkewCost.OneMoreStep | lab7/libs/skew_heap.h:61-85 | a run one operation longer does that operation last and makes its calls as well |
| SkewCost.RunCost | lab7/libs/skew_heap.h:61-85 | from empty, m insertions and removals never holding more than n entries make at most m (4 log(n+1) + 1) calls of merge |
| SkewHeap.InitEntry | lab7/libs/skew_heap.h:23-27 | an initialised entry is a heap of one |
| SkewHeap.Adopt | lab7/libs/skew_heap.h:42-44 | relinking one level of a merge leaves all links of the new tree right |
| SkewHeap.MergeHeaps | lab7/libs/skew_heap.h:29-59 | merging disjoint trees in place leaves the links of the merged tree, with the root's parent link untouched; only their entries are written; the calls made are those counted |
| SkewHeap.InsertEntry | lab7/libs/skew_heap.h:61-67 | inserting leaves a whole heap of the old entries and the new one, ordered if it was ordered |
| SkewHeap.PlugLinked | lab7/libs/skew_heap.h:69-85 | a heap is rightly linked exactly when a subtree and its surroundings are |
| SkewHeap.Locate | lab7/libs/skew_heap.h:69-85 | every entry hangs somewhere in the heap; removing it puts the merge of its two subtrees there and makes that merge's calls |
| SkewHeap.Reattach | lab7/libs/skew_heap.h:75-83 | hanging the replacement under the removed entry's parent leaves a whole heap |
| SkewHeap.RemoveEntry | lab7/libs/skew_heap.h:69-85 | removing any entry through its parent link leaves a whole heap of exactly the others, ordered if it was ordered, root without parent, the removed entry and everything outside untouched |
| SkewHeap.Run | lab7/libs/skew_heap.h:61-85 | every run in place leaves the links of the heap the run describes, touches only the given entries and makes the calls counted |
| SkewHeap.RunFromEmpty | lab7/libs/skew_heap.h:61-85 | from empty, every run in place returns a minimum of the queue, or null only for the empty queue, within m (4 log(n+1) + 1) calls of merge |
| Stride.StrideAnswers | lab8/kern/schedule/default_sched_stride.c:16-25 | the answer is 0 for equal strides, 1 if the first is less than half the 32-bit circle ahead of the second, else -1 |
| Stride.OrderedIffHalfCircle | lab8/kern/schedule/default_sched_stride.c:16-25 | the comparison of wrapping strides is a strict weak order on a set of strides if and only if they all lie within half the circle from some base |
| Stride.HalfCircleIsOrdered | lab8/kern/schedule/default_sched_stride.c:16-25 | there its order is that of the distances from the base |
| Stride.MergeKeepsStridesIff | lab8/kern/schedule/default_sched_stride.c:16-109 | all merges over a set of strides keep their heaps in order if and only if the strides lie within half the circle |
| Stride.HalfWayRound | lab8/kern/schedule/default_sched_stride.c:21-24 | of two strides half the circle apart, each is put before the other |
| Stride.ChargedWord | lab8/kern/schedule/default_sched_stride.c:129 | the wrapping charge of the stored stride is the charge of the sum, modulo 2^32 |
| Stride.TurnIsFair | lab8/kern/schedule/default_sched_stride.c:65-131 | picking, charging and putting back the root keeps the pool ordered by charges, with the least at the root and no two further apart than any bound from one full charge up to half the circle |
| Stride.RunStaysFair | lab8/kern/schedule/default_sched_stride.c:65-131 | so does every run of turns, departures, and arrivals within that bound of those who wait, however often the strides wrap |
| Stride.RunsKeepLeastAtRootIff | lab8/kern/schedule/default_sched_stride.c:16-131 | every run whose arrivals are within w of those who wait keeps the least charged at the root if and only if w is below 2^31 |
| Stride.RunsKeepFairIff | lab8/kern/schedule/default_sched_stride.c:16-131 | and keeps all charges within w of each other if and only if w is also at least one full charge |
| Stride.HalfWayRoundIsTooFar | lab8/kern/schedule/default_sched_stride.c:16-78 | for any larger w a failing run: from an empty pool, two arrive half the circle apart, and the second is left below the first though it has been charged less |
| StrideHeap.ImageRemove | lab8/kern/schedule/default_sched_stride.c:92-102 | taking an entry out of the heap takes its owner, and nobody else, out of the pool |
| StrideHeap.EventRefines | lab8/kern/schedule/default_sched_stride.c:65-131 | a turn, pick, arrival or departure on entries, under the comparison by the new charges, is the one on processes |
| StrideHeap.EventCharges | lab8/kern/schedule/default_sched_stride.c:118-131 | whoever is picked, put back at once or not, pays 100000 by its priority; nobody else pays anything |
| StrideHeap.PickThenArrive | lab8/kern/schedule/sched.c:85-90 | being picked and taken out, and then queued again, leaves the same pool as a turn |
| StrideHeap.NextElems | lab8/kern/schedule/default_sched_stride.c:65-131 | a turn keeps the entries of the pool; a pick takes out the root, an arrival adds its entry, a departure takes its entry out |
| StrideHeap.Apply | lab8/kern/schedule/default_sched_stride.c:65-131 | one such event in place leaves the links and the charges of the heap it gives |
| StrideHeap.PoolRunRefines | lab8/kern/schedule/default_sched_stride.c:65-131 | every run on entries is the run on processes that is meant |
| StrideHeap.RunCharges | lab8/kern/schedule/default_sched_stride.c:129 | over every run each total grows by exactly 100000 by the priority for each time its entry was picked |
| StrideHeap.PaidAlike | lab8/kern/schedule/default_sched_stride.c:65-131 | over every run whose arrivals are within w of those who wait, w being from one full charge up to half the circle, no two that are in the pool before and after it pay amounts more than 2w apart |
| StrideHeap.SharesAreProportional | lab8/kern/schedule/default_sched_stride.c:65-131 | so for two that keep their priorities the numbers of times they were picked, each times 100000 by its priority, differ by at most 2w, however long the run |
| StrideHeap.Run | lab8/kern/schedule/default_sched_stride.c:65-131 | every run in place leaves the links and the charges described and touches only the given entries |
| StrideHeap.RunFairly | lab8/kern/schedule/default_sched_stride.c:65-131 | every run in place whose arrivals are within w below 2^31 of those who wait leaves at the root an entry whose owner has been charged least, though the comparison changes with every turn; every total has grown by what was paid, and those who stayed have paid amounts at most 2w apart |
| Rand.WrapIsHarmless | lab7/libs/rand.c:13 | wrapping the product and sum at 64 bits never changes the 48 bits kept |
| Rand.NextIsDetermined | lab7/libs/rand.c:13 | the state after 0 is 11, and each state's successor is 25214903917 further round the 2^48 states than that of the state before |
| Rand.OutputIsDetermined | lab7/libs/riscv.h:235-241 | the output lies between 1 and 2147483647 and is one more than the high 36 bits of the state, modulo 2147483647 |
| Rand.FirstCall | lab7/libs/rand.c:4-16 | the first call of all goes to state 25214903928 and returns 6155983 |
| Rand.Generator.constructor | lab7/libs/rand.c:4 | the initial state is 1 |
| Rand.Generator.Rand | lab7/libs/rand.c:11-16 | one call steps the 48-bit state and returns its output, between 1 and RAND_MAX |
| Rand.Generator.Srand | lab7/libs/rand.c:22-25 | seeding makes the seed the state |
| RandPeriod.PowerJump | lab7/libs/rand.c:13 | 2^k calls multiply by one more than a multiple of 2^(k+2) and add an odd multiple of 2^k |
| RandPeriod.Shift | lab7/libs/rand.c:13 | 2^k q calls move every state by a multiple of 2^k that is odd exactly when q is |
| RandPeriod.StatePeriod | lab7/libs/rand.c:13 | a state recurs after n calls if and only if 2^48 divides n |
| RandPeriod.OutputPeriod | lab7/libs/rand.c:11-16 | the outputs repeat after p calls if and only if 2^48 divides p |
| RandPeriod.HalfTurnChangesOutput | lab7/libs/riscv.h:235-241 | states half a period apart have different outputs |
| RandCount.EveryStateIsVisited | lab7/libs/rand.c:13 | each state is reached by exactly one of the 2^48 calls of a period |
| RandCount.OutputCounts | lab7/libs/rand.c:11-16 | in one period each of 1 to 32 is returned 33 * 2^12 times, each other value up to RAND_MAX 32 * 2^12 times, anything else never |
| CString.IntValue | lab7/libs/printfmt.c:87-97 | an int is the one value from -2^31 up to 2^31 that agrees modulo 2^32 |
| CString.LongValue | lab7/libs/string.c:204-258 | a long is the one value from -2^63 up to 2^63 that agrees modulo 2^64 |
| Numerals.DigitNames | lab7/libs/string.c:236-244 | digit v below 36 is character v of the ten digits and the letters, in either case |
| Numerals.NoDigits | lab7/libs/string.c:245-247 | no other character is a digit |
| Numerals.DigitsGrow | lab7/libs/printfmt.c:42-54 | a number below the base prints as its one digit, and a number times the base and a digit as the number and that digit, in lower case |
| Numerals.DigitsDenote | lab7/libs/printfmt.c:42-54 | the digits printed are a canonical numeral of the number |
| Numerals.DigitsAreUnique | lab7/libs/printfmt.c:42-54 | there is no other canonical numeral of it |
| Numerals.DigitCount | lab7/libs/printfmt.c:42-54 | k digits suffice exactly below base^k |
| Format.NumTextShape | lab7/libs/printfmt.c:39-61 | a printed number is as many pad characters as its width exceeds its digits, then the minimal numeral; its length is the larger of the two |
| Format.StringTextShape | lab7/libs/printfmt.c:212-232 | a printed string is cut by a precision and takes the larger of its width and what is left: pad characters before it, or spaces behind it under '-'; under '#' every character outside ' ' to '~' is '?' |
| Format.ErrorNames | lab7/libs/printfmt.c:17-28 | the nine errors with a name, by name, and every other as "error " and its number |
| Format.RenderPlain | lab7/libs/printfmt.c:133-138 | a part of the format without '%' prints as it stands |
| Directives.UnknownIsVerbatim | lab7/libs/printfmt.c:278-282 | what is no directive, a lone trailing '%' included, is printed verbatim, at the cost of the arguments its stars took; directives are made of digits and "-*.#l" and end in one of "cesduopx%" |
| Directives.PercentIsOne | lab7/libs/printfmt.c:272-275 | a '%' where a conversion might stand, be it after flags, sizes or stars, prints as one '%' |
| Directives.ScanIsMeaning | lab7/libs/printfmt.c:140-190 | on every directive built from flags, width, precision, length and conversion the machine collects the parameters its grammar says it means |
| Directives.DirectivePrints | lab7/libs/printfmt.c:140-276 | such a directive prints its argument converted with those parameters, and the rest of the format follows |
| Specs.PadIs | lab7/libs/printfmt.c:148-156 | the pad character is the last '-' or '0' among the flags, else a space |
| Specs.SizesMean | lab7/libs/printfmt.c:158-186 | width and precision are the numbers written, or the ints their stars find; one that is missing or negative counts as none |
| Specs.FormatMeans | lab7/libs/printfmt.c:140-276 | every format of one directive, built from any flags, width, point, precision, any number of l and a conversion, prints its last argument converted with just these parameters |
| Specs.CharPrints | lab7/libs/printfmt.c:192-195 | %c prints the low byte of its int, whatever the flags and sizes |
| Specs.StringPrints | lab7/libs/printfmt.c:211-232 | %s prints its string, or "(null)", cut and padded as its flags and sizes say |
| Specs.ErrorPrints | lab7/libs/printfmt.c:197-209 | %e prints the line of its error, alike for both signs, whatever the flags and sizes |
| Buffer.StateIs | lab7/libs/printfmt.c:299-305 | however long the text, the buffer holds as much as fits, the memory around it is unchanged, and the count is of the whole text |
| Buffer.Terminated | lab7/libs/printfmt.c:345-346 | the final NUL makes the buffer exactly the fitting part of the text, terminated |
| Buffer.FilledShape | lab7/libs/printfmt.c:299-346 | character by character: the low bytes of as much of the text as leaves room for a NUL, the NUL, and nothing else changed |
| Printer.Sink.constructor | lab7/libs/printfmt.c:339 | a new sink has received nothing |
| Printer.Sink.Putch | lab7/libs/printfmt.c:299-305 | one more character is received, counted, and stored if there is room |
| Printer.Sink.Pad | lab7/libs/printfmt.c:50-51 | the padding loop emits as many characters as the width says |
| Printer.Sink.PrintNum | lab7/libs/printfmt.c:39-61 | the recursion that counts the width down prints the padded numeral |
| Printer.Strnlen | lab7/libs/string.c:33-40 | the distance to the first NUL, or the limit if that is smaller; a block as long as the limit needs no NUL |
| Printer.Sink.PutShown | lab7/libs/printfmt.c:221-228 | the loop emits the characters up to the terminator or the precision, with unprintable ones replaced on request |
| Printer.Sink.PrintString | lab7/libs/printfmt.c:212-232 | %s prints the shown part padded to the width, left or right |
| Printer.Sink.PrintSigned | lab7/libs/printfmt.c:235-242 | %d prints the sign and the magnitude of every long, the smallest included |
| Printer.Sink.PrintError | lab7/libs/printfmt.c:198-209 | %e prints the name of the error, or its number, alike for both signs |
| Printer.Sink.Convert | lab7/libs/printfmt.c:193-270 | every conversion prints the text of its argument |
| Printer.ScanNumber | lab7/libs/printfmt.c:159-167 | the number loop reads the decimal value of the whole run of digits and stops in front of the next character |
| Printer.CollectAll | lab7/libs/printfmt.c:145-190 | the loop behind reswitch ends, inside the format, with the parameters collected |
| Printer.WindBack | lab7/libs/printfmt.c:280-281 | the rewind stops just behind the directive's own '%' |
| Printer.Sink.EndDirective | lab7/libs/printfmt.c:192-283 | the end of a directive prints its text and goes on behind it, or just behind its '%' |
| Printer.Sink.FormatDirective | lab7/libs/printfmt.c:140-283 | one directive and the rest of the format print what was left to print |
| Printer.Sink.PutPlain | lab7/libs/printfmt.c:133-138 | the literal loop prints what stands before the next '%' or the end of the format |
| Printer.Sink.VPrintFmt | lab7/libs/printfmt.c:126-285 | the machine ends on every format, reads nothing behind its terminator, and hands over exactly the text of the format and its arguments |
| Snprintf.Vsnprintf | lab7/libs/printfmt.c:338-348 | the result is the length of the whole text as an int; the buffer holds the first min(length, size - 1) characters and a NUL; no other character changes; without a buffer or room -3 is returned and nothing written, whatever the format and arguments |
| Strtol.Strtol | lab7/libs/string.c:203-259 | blanks, one sign, an admitted prefix and the longest run of digits are read; the result is the signed value modulo 2^64 and the end of the run |
| Strtol.ReadDigits | lab7/libs/string.c:232-252 | the digit loop stops at the first character that is no digit of the base, with the value modulo 2^64 |
| Strtol.ReadingIsUnique | lab7/libs/string.c:207-252 | a string can be divided in that way only once |
| Strtol.ReadsIff | lab7/libs/string.c:207-252 | the same by the texts a string is divided into: blanks, "+", "-" or nothing, "0x" or "0" or nothing as the base allows, and the longest run of digits |
| Strtol.ResultIs | lab7/libs/string.c:252-258 | the result is the value of that run, negated behind "-", as a long |
| Strtol.CaseDoesNotMatter | lab7/libs/string.c:239-244 | changing the case of letters among the digits changes neither the end nor the result |
| Strtol.DocumentedIff | lab7/libs/string.c:181-259 | modulo 2^64 the outcome is the documented one if and only if the spaces and tabs are not followed by other white space and no "0X" stands in base 16 where the prefix may; value for value it is, if and only if a long also holds the value |
| Strtol.NewlineExample | lab7/libs/string.c:181-211 | a newline and 42 are read as 0, up to the newline, where 42 is documented |
| Strtol.UpperPrefixExample | lab7/libs/string.c:221-223 | "0X1f" in base 16 is read as 0 where 31 is documented |
| Strtol.UpperPrefixInBaseZero | lab7/libs/string.c:188-225 | "0X1f" in base 0 is the octal 0 for the comment and the code alike |
| RoundTrip.DecimalPrints | lab7/libs/printfmt.c:234-269 | %d and %ld print a '-' for a negative number, then the padding up to the width, then the digits |
| RoundTrip.DecimalRoundTrip | lab7/libs/printfmt.c:235-269 | %ld, padded in any way to any width, and strtol in base 10 give a long back, read to the end, if and only if no space comes between '-' and the digits and no pad '-' before them, "-0" excepted |
| RoundTrip.IntRoundTrip | lab7/libs/printfmt.c:87-97 | %d of an int gives the int back, with its sign, under the same condition |
| RoundTrip.DecimalInBaseZero | lab7/libs/string.c:221-229 | with base 0 in place of 10, %d and %ld give the number back under the same condition, except that padding zeros make it octal, which is right if and only if its magnitude is below 8 |
| RoundTrip.UnsignedRoundTrip | lab7/libs/printfmt.c:245-269 | %lu, %lo and %lx and strtol in the same base give a value back modulo 2^64, read to the end, always if padded with spaces or zeros; under the '-' flag if and only if there is no padding, or a single '-' in front of 0 or 2^63 |
| RoundTrip.UnsignedIntRoundTrip | lab7/libs/printfmt.c:68-78 | %u, %o and %x of an int give the unsigned number back that its bits stand for; under the '-' flag if and only if there is no padding, or a single '-' in front of 0 |
| RoundTrip.PointerRoundTrip | lab7/libs/printfmt.c:257-269 | %p and strtol in base 0 or 16 give an address back if and only if nothing but zeros comes between the prefix and the digits |
| RoundTrip.PrintThenParse | lab7/libs/printfmt.c:338-348 | snprintf with "%ld" into a buffer and strtol of that buffer return the long and the end of the text |
| Memory.Memmove | lab7/libs/string.c:292-311 | however the ranges overlap, the destination ends with the original source bytes and nothing else changes |
| Memory.Memcpy | lab7/libs/string.c:327-339 | copies byte after byte from the lowest address up |
| Memory.ForwardCopyEffect | lab7/libs/string.c:327-339 | with a destination inside the source, a forward copy repeats the bytes between the two over and over |
| Memory.ForwardSafeIff | lab7/libs/string.c:299-308 | a forward copy is right on every memory if and only if the destination does not start strictly inside the source, which is the guard of memmove |
| StrCmp.Strcmp | lab7/libs/string.c:103-113 | the difference at the first position where the strings differ or both end |
| StrCmp.OrderIs | lab7/libs/string.c:103-113 | that is the difference of the two unsigned characters there |
| StrCmp.Strncmp | lab7/libs/string.c:126-132 | what strcmp returns for the strings that the first n characters make; blocks of n characters need no NUL |
| StrCmp.ClipShape | lab7/libs/string.c:126-132 | the string so made is the characters up to the first NUL, but at most n |
| StrCmp.Memcmp | lab7/libs/string.c:355-366 | zero for equal blocks, else the difference of the first unequal bytes |
| StrCmp.EqualIffZero | lab7/libs/string.c:95-101 | strcmp returns zero if and only if the strings are equal |
| StrCmp.Antisymmetric | lab7/libs/string.c:103-113 | exchanging the strings negates the result |
| StrCmp.Transitive | lab7/libs/string.c:103-113 | the order is transitive, strictly if either comparison is strict |
| StrCmp.Lexicographic | lab7/libs/string.c:95-101 | smaller means a smaller unsigned byte after a common part |
| StrCmp.StrncmpAgreesIff | lab7/libs/string.c:126-132 | strncmp returns what strcmp returns exactly when n reaches the first difference or there is none, so for every n above a length |
| StrCmp.MemcmpAgrees | lab7/libs/string.c:355-366 | memcmp over the shorter string and its terminator returns what strcmp returns |
| ListRing.ListInit | lab7/libs/list.h:40-43 | an initialised entry is a ring of one |
| ListRing.AddBetween | lab7/libs/list.h:141-146 | linking an entry between neighbours gives the ring with it inserted there |
| ListRing.ListAddAfter | lab7/libs/list.h:79-82 | the entry is inserted after the given one |
| ListRing.ListAddBefore | lab7/libs/list.h:66-69 | the entry is inserted before the given one; before the head means at the end |
| ListRing.DeleteBetween | lab7/libs/list.h:154-158 | the two entries become neighbours |
| ListRing.ListDel | lab7/libs/list.h:84-94 | the others form the ring without the entry, whose own links stay; deleting an only entry changes nothing, and only then does the deleted entry look like an empty list |
| ListRing.ListDelInit | lab7/libs/list.h:102-106 | the others form the ring without the entry, which becomes a ring of one |
| ListRing.ListEmpty | lab7/libs/list.h:112-115 | true exactly for a ring of one |
| ListRing.RingIsUnique | lab7/libs/list.h:17-19 | the links and the first entry determine the whole sequence |
| ListRing.Rotated | lab7/libs/list.h:17-19 | a ring may be read from any of its entries |
| ListRing.HeadWalks | lab7/libs/list.h:121-133 | from the head of n entries the first return along next is after n + 1 steps, and the prev walk is the exact reverse |
| ListRing.EffectIs | lab7/libs/list.h:66-94 | where in the sequence each operation puts its entry, or takes it out |
| ListRing.OneMoreEffect | lab7/libs/list.h:66-94 | a run one operation longer does that operation last |
| ListRing.Run | lab7/libs/list.h:66-94 | every run of additions and deletions leaves the ring of the sequence it describes and touches no other entry |
| ListRing.AddThenDelete | lab7/libs/list.h:79-94 | deleting an entry just added after another restores every link |
| ListRing.AddBeforeThenDelete | lab7/libs/list.h:66-94 | deleting an entry just added before another restores every link |
| ListRing.Put | lab7/libs/list.h:66-69 | adding before the head appends to the queue |
| ListRing.Take | lab7/libs/list.h:91-124 | deleting the entry after the head takes the first of the queue |
| Bits.MembersAre | lab7/libs/atomic.h:30-31 | number nr is bit nr % 64 of word nr / 64 |
| Bits.StepRefines | lab7/libs/atomic.h:30-46 | on the words an operation does what it says on the set of numbers, and nothing to other numbers |
| Bits.SetBit | lab7/libs/atomic.h:60-62 | the number joins the set |
| Bits.ClearBit | lab7/libs/atomic.h:69-71 | the number leaves the set |
| Bits.ChangeBit | lab7/libs/atomic.h:78-80 | the number's membership is toggled |
| Bits.TestAndSetBit | lab7/libs/atomic.h:96-98 | the number joins the set and its old membership is returned |
| Bits.TestAndClearBit | lab7/libs/atomic.h:105-107 | the number leaves the set and its old membership is returned |
| Bits.TestBitCorrectIff | lab7/libs/atomic.h:87-89 | test_bit agrees with the set on every array if and only if the number is below 64 |
| Bits.RunRefines | lab7/libs/atomic.h:60-107 | over every interleaving the words refine the set, in their final contents and in every answer |
| Bits.LastWriteDecides | lab7/libs/atomic.h:60-107 | after every run a bit is as the last operation that set or cleared it left it, toggled once for each change behind that |
| Bits.NonInterference | lab7/libs/atomic.h:60-107 | what happens to a bit is what would happen if only its own operations ran |
| Bits.OrderPerBitDecides | lab7/libs/atomic.h:60-107 | interleavings that order the operations on each bit alike end alike, with the same answers |
| Bits.SuccessesAlternate | lab7/libs/atomic.h:96-107 | if only test-and-set and test-and-clear touch a bit, successful sets and clears strictly alternate, and the last one tells the final bit |
| Hash.ScrambleIsInvertible | lab7/libs/hash.c:15 | multiplication by the constant permutes the 32-bit words |
| Hash.HashIsDetermined | lab7/libs/hash.c:4-16 | the full hash of 1 is 0x9e370001, the full hash of a wrapping sum is the wrapping sum of the full hashes, and a shorter hash is the high end of the full one |
| Hash.HashOfOne | lab7/libs/hash.c:13-17 | hash32(1, 10) is 632 |
| Hash.HashIsBalanced | lab7/libs/hash.c:6-17 | each of the 2^bits buckets receives exactly 2^(32-bits) of the 2^32 inputs, and no other value occurs |

## Left out

- Widths, precisions and counts of `l` that overflow an `int`: undefined in C; the model counts them in unbounded integers.
- The count of a text longer than 2^31 - 1: incrementing past the largest int is undefined in C; the model lets it wrap.
- `%s` arguments without a NUL: the model's string arguments are terminated.
- Overlap of the buffer with the format or a string argument: these are values in the model, so that writing to the buffer does not change them.
- Addresses: memory is one array and pointers are positions in it, so that no address wraps around.
- `printfmt` and `snprintf`: wrappers that only collect variable arguments.
- Memory order of the atomic instructions: each is one indivisible step.
- Negative bit numbers: the model takes natural numbers.
- `hash32` with 0 or more than 32 bits: the shift is undefined in C.
- `strlen`, `strcpy`, `strncpy`, `strchr`, `strfind`, `memset`: they would only add easy members.
- `list_add`, `list_next`, `list_prev`: one-line synonyms and reads; the walks cover the reads.
- The scheduler beyond its pool: time slices, the run list, priority 0 (a division by zero; setting a priority replaces 0 by 1, but until then a new process has none), the value of a new process's stride (nothing sets it) and the processes' other state.
- Console, SBI and CSR access, `readline.c`, the rest of the kernel outside `libs/`, the `user/` programs and `tools/`: not part of this model.
