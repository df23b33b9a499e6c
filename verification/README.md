# The C runtime of the uCore labs, modelled in Dafny

The labs of this repository share a small C runtime under `libs/`: a pointer-based skew
heap, `printf`-style formatting into a bounded buffer, `strtol`, a 48-bit random number
generator, memory and string routines, intrusive circular lists and a multiplicative hash.
This project models the lab6 copies of that runtime, the scheduling of processes from a skew
heap, and the process tree of `user/forktree.c`, and proves what the code is for. Where the code and its
comments disagree, the model follows the code:

- `rand` never returns 0, although its comment announces the range [0, RAND_MAX]: the macro
  argument `RAND_MAX + 1` is not parenthesised, so 1 is added after the remainder by
  RAND_MAX is taken (`EveryValueDrawn`, `Bias`).
- `strtol` takes only the lowercase prefix `0x`, although its comment admits `0X` in base 16
  (`UpperHex`; `KeepsToComment` says exactly when it does what the comment promises). The
  comment does not say whether a digit must follow a prefix; the model reads it as the code
  does, which takes `0x` alone (`PrefixAlone`).
- `vprintfmt` pads numbers on the left with `-` characters after the flag `-`, prints the
  sign before the pads, and reads `.0` as the flag `0` with no precision (`PrecisionZero`).
  Hence a printed number does not always parse back (`PaddedNegative`), nor does one above
  LONG_MAX (`LeastLong`, `KernelBase`); `PrintParse` says exactly when it does.
- A process that slept keeps its old stride, and nothing in `wakeup_proc` looks at it: the
  stride comparison orders the queue exactly when all strides lie in a window of 2^31
  (`OrderIffWindow`), and `JoinIff` says which strides may come back.
- "Bigger value will get more CPU time" holds of priorities up to BIG_STRIDE
  (`PriorityGetsMore`); beyond it the steps are 0 and a process may starve
  (`ZeroStepStarves`).
- The comment of `vprintfmt` says that widths are for numbers only; strings have them too.

## Files

| file | what it holds |
|---|---|
| SkewTrees.dfy | the trees that a skew heap denotes; merge, deletion, heap order |
| SkewCost.dfy | runs of operations: invariants, the amortised bound, draining |
| SkewHeap.dfy | `skew_heap.h` on entries with parent, left and right pointers |
| SkewClient.dfy | what any user of the heap holds over its whole run, and draining, on the pointers |
| Stride.dfy | the comparison of the stride scheduler, when it orders, and the shares it deals out |
| Scheduler.dfy | `schedule` on a queue that is a skew heap, while strides change in memory |
| Arithmetic.dfy | powers of two, quotients and remainders |
| Rand.dfy, RandBias.dfy | `rand.c`: the recurrence, its full period, the distribution of `rand` |
| Hash.dfy | `hash.c` |
| CStrings.dfy | NUL-terminated strings, `strlen`, `strnlen` |
| StringOps.dfy | `memmove`, `memcpy`, `strcmp`, `strncmp`, `memcmp` |
| Numerals.dfy | digits and positional value |
| StrTol.dfy | `strtol` |
| Format.dfy | the two-phase meaning of formats: parse into items, render the items |
| FormatLaws.dfy | those meanings in terms of the text and of the argument slots |
| Printf.dfy | `printfmt.c`: bounded buffer, digit printer, directive machine, `vsnprintf` |
| RoundTrip.dfy | printing a number and parsing it back |
| Lists.dfy | `list.h`: rings on one heap, and a queue on a ring |
| ForkTree.dfy | `forktree.c`: labels through `snprintf`, processes in any order |

Code that updates things in place is modelled by classes, arrays and methods with loops; the
ghost trees, sequences and traces in their contracts say what the state means, and the
lemmas are about those.

## Model

| member | source | states |
|---|---|---|
| SkewHeap.MergeEntries | lab6/libs/skew_heap.h:29-59 | For any callback, reading memory or not, merging two disjoint trees terminates and leaves, on the pointers themselves, exactly the edges of the merged tree in both directions; the parent of the returned root is untouched; the recursive calls are counted |
| SkewHeap.Attach | lab6/libs/skew_heap.h:42-44 | The stores at the end of a merge turn two linked trees and an entry into one linked tree and keep the entry's parent |
| SkewHeap.Entry.Init | lab6/libs/skew_heap.h:23-27 | The entry has no parent and no children |
| SkewHeap.Insert | lab6/libs/skew_heap.h:61-67 | A free entry joins a valid heap: the node set grows by it, and shape, parent links and order hold again |
| SkewHeap.Remove | lab6/libs/skew_heap.h:69-85 | Any entry, root or not, is removed through its parent link, whatever has become of its own key: the result is a valid heap of exactly the other entries, by their keys now, under the returned root, and only the entry's subtree and its parent are written |
| SkewHeap.Unlink | lab6/libs/skew_heap.h:73-84 | The pointer work of removal leaves the edges of the spliced tree whatever the callback does |
| SkewHeap.DeleteLinks | lab6/libs/skew_heap.h:73-84 | Which three pointers every surviving entry must hold after a removal, in terms of those before: only the merged subtree and one child pointer of the parent differ |
| SkewHeap.ParentInTree | lab6/libs/skew_heap.h:77-81 | Below the root, an entry's parent lies in the heap outside the entry's own subtree, and the entry is its left or right child |
| SkewTrees.MergeNodes | lab6/libs/skew_heap.h:29-59 | Merging loses and invents no entry |
| SkewTrees.MergeDistinct | lab6/libs/skew_heap.h:29-59 | Merging disjoint trees yields a tree: no entry is reached in two ways |
| SkewTrees.MergeOrdered | lab6/libs/skew_heap.h:37-58 | Merging keeps heap order, given that "returned -1" is a strict weak order on the entries |
| SkewTrees.DeleteNodes | lab6/libs/skew_heap.h:69-85 | Removal takes out exactly the one entry |
| SkewTrees.DeleteOrdered | lab6/libs/skew_heap.h:69-85 | Heap order holds across the splice |
| SkewTrees.DeleteReordered | lab6/libs/skew_heap.h:69-85 | The same for an entry whose key has changed in any way since the heap was in order |
| SkewTrees.RootIsMinimum | lab6/libs/skew_heap.h:37-58 | No entry is less than the root |
| Stride.CallbackComputes | lab6/kern/schedule/default_sched_stride:15-24 | The callback, which reads the strides of two processes from memory, answers by the current strides and reads no link, as the heap operations ask |
| Stride.OrderIffWindow | lab6/kern/schedule/default_sched_stride:15-24 | The signed 32-bit difference of wrapping strides is a strict weak order on a set of processes exactly when all strides lie in some window of 2^31 |
| Stride.Opposite | lab6/kern/schedule/default_sched_stride:20-23 | Two processes are each less than the other exactly when their strides are 2^31 apart |
| Stride.AnswersAreOpposite | lab6/kern/schedule/default_sched_stride:20-23 | The answer is 0 exactly for equal strides, 1 for one less than 2^31 ahead, and otherwise the opposite of the answer the other way round |
| Stride.PickKeepsWindow | lab6/kern/schedule/default_sched_stride:87-110 | When the process with the least stride advances by less than the window, of at most 2^31, in which all strides lie, they stay in one, wrap-around or not |
| Stride.JoinIff | lab6/kern/schedule/sched.c:58-76 | Which strides a process may join with, exactly, so that all still lie in one window |
| Stride.RunKeepsOrder | lab6/kern/schedule/default_sched_stride:87-110 | With a pass below the window, of at most 2^31, the callback is a strict weak order at every point of every run in which processes are picked, join and leave |
| Stride.PassIsExact | lab6/kern/schedule/default_sched_stride:10-12 | The bound on BIG_STRIDE, which the source leaves open: with two equal strides the comparison stays an order after every advance of at most one pass exactly when the pass is below 2^31 |
| Stride.AdvanceIsSeen | lab6/kern/schedule/default_sched_stride:20-23 | Of two equal strides one that advances counts as less all the same exactly when it advances by 2^31 or more, and the other exactly up to 2^31 |
| Stride.StridesCount | lab6/kern/schedule/default_sched_stride:97-98 | The stride of a process that stays and keeps its step is its first stride plus its number of turns times the step, modulo 2^32 |
| Stride.CountersStayClose | lab6/kern/schedule/default_sched_stride:20 | While two processes stay and keep their steps, whatever others join, leave or are picked, the difference that the callback looks at counts the turns of both without wrapping, and neither gets further ahead than it was at first or than one step of its own |
| Stride.FairShares | lab6/kern/process/proc.h:86 | Over any stretch of any run in which two processes stay and keep their steps, whatever others do: weighted by the steps, one gets at most one turn more than the other, but for what it was behind at first |
| Stride.BiggerGetsMore | lab6/kern/process/proc.h:86 | From equal strides, the process with the smaller step, which has the bigger priority, never has had two turns less |
| Stride.PriorityGetsMore | lab6/kern/process/proc.h:86 | In priorities: from equal strides, the process with no smaller priority never has had two turns less, over any stretch, if the other priority is at most BIG_STRIDE |
| Stride.ZeroStepStarves | lab6/kern/schedule/default_sched_stride:98 | With both priorities above BIG_STRIDE the steps are 0, and one process may get any number of turns while the other gets none |
| Stride.FairPriorities | lab6/kern/process/proc.h:86 | Turns are in proportion to priorities, up to the rounding of the steps, one turn and the lag at first |
| Scheduler.RunQueue.PickNext | lab6/kern/schedule/default_sched_stride:89-110 | The root is a process with the least stride; while it is still in the heap its stride in memory advances by s, where s * priority <= BIG_STRIDE < s * priority + priority; null just when no process is there |
| Scheduler.RunQueue.Enqueue | lab6/kern/schedule/sched.c:17-21 | A process enters the heap with whatever stride it now has in memory |
| Scheduler.RunQueue.Dequeue | lab6/kern/schedule/sched.c:23-26 | A process leaves the heap although its stride has changed since it came in |
| Scheduler.RunQueue.Schedule | lab6/kern/schedule/sched.c:78-100 | The running process goes back if it is runnable; one with the least stride of all comes out and runs, its stride advanced; the heap is valid by the new strides, all lie in one window, and the log of what has happened grows by just that |
| Scheduler.RunQueue.Wakeup | lab6/kern/schedule/sched.c:58-76 | A process whose stride keeps the window joins the queue |
| Scheduler.RunQueue.SetPriority | lab6/kern/process/proc.c:874-882 | The priority of the running process becomes at least 1 and everything else holds on |
| Scheduler.RunQueue.Fair | lab6/kern/process/proc.h:86 | The same of everything that calls of schedule, wakeup_proc and lab6_set_priority have done so far, over any stretch of it |
| Scheduler.RunQueue.FairByPriority | lab6/kern/process/proc.h:86 | The same in priorities |
| Scheduler.Rounds | lab6/kern/schedule/sched.c:78-100 | Any number of calls of schedule, on the heap's pointers and the strides in memory, where the running process may have gone to sleep before each: those that never do have run in inverse proportion to their steps, up to one turn and the lead at the start; from equal strides the one with no smaller a priority in memory never two turns less |
| SkewCost.MergeCredit | lab6/libs/skew_heap.h:29-59 | The calls of one merge are paid by the heavy entries it straightens, up to the light ones on the two right spines and the heavy ones it makes |
| SkewCost.LightIsLogarithmic | lab6/libs/skew_heap.h:29-59 | A right spine has at most log2 n + 1 light entries |
| SkewCost.HeavyIsLogarithmic | lab6/libs/skew_heap.h:29-59 | A merge makes at most log2 n entries heavy on the path it walks |
| SkewCost.MergeAmortised | lab6/libs/skew_heap.h:29-59 | Calls plus new credit are at most old credit plus 3 log2 n + 2 |
| SkewCost.RemoveAmortised | lab6/libs/skew_heap.h:69-85 | The same bound for the removal of any entry at any depth |
| SkewCost.AmortisedBound | lab6/libs/skew_heap.h:29-85 | Over every legal run with at most n live entries, all calls of merge number at most (3 floor(log2 n) + 2) per operation on average, whatever the callback answers each time |
| SkewCost.Log2IsExponent | lab6/libs/skew_heap.h:29-85 | The log2 of these bounds is the exponent of the greatest power of two up to n |
| SkewCost.RunKeepsNodes | lab6/libs/skew_heap.h:61-85 | After every run the heap is a tree of exactly the live entries |
| SkewCost.RunKeepsOrder | lab6/libs/skew_heap.h:61-85 | After every run heap order holds by the keys of the moment, although entries change their keys before they leave and come back with others |
| SkewCost.RunRootIsMinimum | lab6/libs/skew_heap.h:61-85 | After every such run the root is a live entry and a minimum of the live ones; there is none just when nothing is live |
| SkewCost.DrainSorts | lab6/libs/skew_heap.h:69-85 | Removing the root until none is left lists every entry once, none before a lesser one |
| SkewClient.Pool.Promise | lab6/libs/skew_heap.h:61-85 | Whatever a user has inserted and removed so far through its root pointer, with keys that change in between: the root is a least live entry, null just when nothing is live, and the merges made are within the amortised bound |
| SkewClient.Pool.Insert | lab6/libs/skew_heap.h:61-67 | An insertion, of an entry with any key that the order admits, extends the user's run and keeps all that |
| SkewClient.Pool.Remove | lab6/libs/skew_heap.h:69-85 | So does the removal of any live entry, its own key changed or not |
| SkewClient.Empty | lab6/libs/skew_heap.h:69-85 | Draining on the real pointers sorts the entries |
| Rand.Generator.SRand | lab6/libs/rand.c:22-25 | Every unsigned seed starts the recurrence afresh from that state |
| Rand.Generator.Rand | lab6/libs/rand.c:11-16 | With 64-bit wrap-around and the mask, a call replaces the state x by (25214903917 x + 11) mod 2^48 and returns its high bits modulo 2147483647, plus 1; so the n-th call since srand leaves the n-th state of that recurrence |
| Rand.FirstValues | lab6/libs/rand.c:11-16 | After srand(1) the values are 6155983, 907315447 and 1947276717 |
| Rand.MaskAfterWrap | lab6/libs/rand.c:13 | Wrapping at 64 bits before masking does not change the low 48 |
| Rand.BlockShift | lab6/libs/rand.c:13 | 2^k steps shift the unreduced state by an odd multiple of 2^k |
| Rand.Shift | lab6/libs/rand.c:13 | q blocks of 2^k steps shift it by 2^k times a number of the parity of q |
| Rand.LowBitsCycle | lab6/libs/rand.c:13 | For k up to 48 the low k bits return exactly after the multiples of 2^k steps |
| Rand.FullPeriod | lab6/libs/rand.c:11-25 | From every seed the state returns exactly after the multiples of 2^48 calls |
| Rand.VisitsEveryState | lab6/libs/rand.c:11-25 | Each of the 2^48 states is met in one period, at one time only |
| Rand.EveryValueDrawn | lab6/libs/rand.c:14-15 | From every seed the values returned within a period are exactly 1 to RAND_MAX |
| RandBias.Bias | lab6/libs/rand.c:11-16 | In a period each value up to 32 is returned exactly 33 * 4096 times, each other exactly 32 * 4096 times |
| RandBias.TimesAreStates | lab6/libs/rand.c:11-16 | The times a value is returned match the states it is drawn from, one to one |
| Hash.GoldenRatio | lab6/libs/hash.c:3-4 | The multiplier is the sum of powers of two that the comment gives |
| Hash.Bijection | lab6/libs/hash.c:15 | Multiplying by the constant permutes the 32-bit words; the inverse multiplier undoes it both ways |
| Hash.HighBits | lab6/libs/hash.c:15-16 | The hash is the high bits of val * 0x9e370001 modulo 2^32 |
| Hash.HashRange | lab6/libs/hash.c:6-17 | The hash is below 2^bits |
| Hash.Balanced | lab6/libs/hash.c:6-17 | Every hash value below 2^bits has exactly 2^(32 - bits) inputs |
| CStrings.StrLen | lab6/libs/string.c:11-18 | The length of the text before the NUL |
| CStrings.StrNLen | lab6/libs/string.c:33-40 | The smaller of the text's length and the limit, of memory with a NUL or with that many characters to read; nothing after the NUL or the limit is read |
| StringOps.MemMove | lab6/libs/string.c:292-311 | Under every overlap the destination holds what the source held and no other byte changes |
| StringOps.MemCpy | lab6/libs/string.c:327-339 | The memory after byte-by-byte forward copying, whatever the overlap |
| StringOps.CopiedRepeats | lab6/libs/string.c:327-339 | With the destination above the source, memcpy fills the overlap periodically |
| StringOps.CopiedIsMovedIff | lab6/libs/string.c:292-339 | memcpy agrees with memmove on all memories exactly when the regions are disjoint or dst <= src |
| StringOps.StrCmp | lab6/libs/string.c:103-113 | The sign of the result is the lexicographic order of the two texts by unsigned value, 0 exactly for equal texts |
| StringOps.StrNCmp | lab6/libs/string.c:126-132 | It orders the texts cut to n characters; memory of n characters without a NUL is a text as well |
| StringOps.MemCmp | lab6/libs/string.c:355-366 | It orders the first n bytes |
| StringOps.MemCmpIsStrCmp | lab6/libs/string.c:88-113 | Over the shorter text and its NUL, memcmp orders strings exactly as strcmp does |
| StringOps.LexByFirstDifference | lab6/libs/string.c:88-102 | The order is that of the first characters that differ, and a text comes before what it is continued to |
| StringOps.LexTotal | lab6/libs/string.c:88-102 | Of less, equal and greater exactly one holds |
| StringOps.LexTransitive | lab6/libs/string.c:88-102 | The order is transitive |
| Numerals.DigitsValue | lab6/libs/printfmt.c:39-61 | The digits printed denote the number |
| Numerals.DigitsShape | lab6/libs/printfmt.c:39-61 | They are digits of the base, in lower case, with no needless leading zero |
| Numerals.DigitAlphabets | lab6/libs/string.c:235-247 | The digits up to base 36 are exactly the characters of two alphabets, lower and upper case, and stand for their places there |
| Numerals.DecimalCanonical | lab6/libs/printfmt.c:159-166 | A decimal run that does not start with 0 is what its value prints as |
| StrTol.StrToL | lab6/libs/string.c:203-259 | The long and the end returned are those of the lead and the digit run that the text starts with; a run whose accumulation leaves long is told apart |
| StrTol.Accumulate | lab6/libs/string.c:232-253 | The digit loop ends where the run of digits does and has accumulated its positional value; it tells whether every value on the way fitted in a long |
| StrTol.MaximalMunch | lab6/libs/string.c:203-259 | Every text parses in exactly one way as blanks, at most one sign, the longest prefix that the base admits and a run of digits that cannot be longer, and it is that parse which the function finds; by the syntax of the comment there is exactly one parse too |
| StrTol.ResultIsParse | lab6/libs/string.c:203-259 | The result is the signed positional value of that run and endptr its end, if the value is at most LONG_MAX |
| StrTol.OverflowIff | lab6/libs/string.c:251-258 | Every value accumulated fits in a long exactly when the signed value of the run lies between -LONG_MAX and LONG_MAX; LONG_MIN overflows |
| StrTol.KeepsToComment | lab6/libs/string.c:195-199 | Value and end are what the comment promises exactly when the base is not 16 or no `0X` stands after the blanks and the sign; otherwise only the 0 is read |
| StrTol.UpperHex | lab6/libs/string.c:195-199 | `0X1f` in base 16 yields 0 with end 1, by the comment 31 with end 4 |
| StrTol.PrefixAlone | lab6/libs/string.c:222-224 | `0x` with no hexadecimal digit after it yields 0 and ends after the x |
| StrTol.CaseMatters | lab6/libs/string.c:232-253 | A text and its upper-case form have the same value and end in every base, exactly when no prefix `0x` is taken |
| StrTol.UpperDigits | lab6/libs/string.c:241-243 | `1F` in base 16 is 31 with end 2 |
| Format.ShowParse | lab6/libs/printfmt.c:132-285 | Parsing a format loses nothing: its items spell it |
| FormatLaws.ParseShow | lab6/libs/printfmt.c:132-285 | The text of any sequence of items, with conversions from `cesduopx%`, modifiers from `-.*#l` and digits, and unknown directives, is read as just these items |
| FormatLaws.ParseIsWell | lab6/libs/printfmt.c:132-285 | Every text is read as items of that kind, so texts and such sequences of items match one to one |
| FormatLaws.ItemTakes | lab6/libs/printfmt.c:169-270 | An item takes one argument for each `*` and one for a conversion other than `%`, and leaves the rest |
| FormatLaws.RenderPieces | lab6/libs/printfmt.c:132-285 | The output is the texts of the items one after another, each rendered on the arguments that those counts leave it |
| FormatLaws.TwoNumbers | lab6/libs/printfmt.c:234-241 | `%d %d` prints its two arguments in order |
| FormatLaws.OneTwo | lab6/libs/printfmt.c:234-241 | `%d %d` with 1 and 2 prints `1 2` |
| FormatLaws.ModsAmountTo | lab6/libs/printfmt.c:141-194 | In whatever order modifiers come: the l's are counted, a `#` anywhere counts, the last `-` or `0` decides the padding |
| FormatLaws.UnsignedOutput | lab6/libs/printfmt.c:69-80 | `%u`, `%o` and `%x` print the least text, in lower case, of the low 32 bits of the slot without an l, and of all 64 with one or more |
| FormatLaws.SignedOutput | lab6/libs/printfmt.c:87-98 | `%d` prints those bits as a number in two's complement |
| FormatLaws.PointerOutput | lab6/libs/printfmt.c:257-261 | `%p` prints `0x` and all 64 bits of a word, or the address of a string |
| FormatLaws.CharOutput | lab6/libs/printfmt.c:193-195 | `%c` prints the low 8 bits of the slot |
| FormatLaws.PercentOutput | lab6/libs/printfmt.c:272-275 | `%%` prints a `%` and takes no argument |
| FormatLaws.NullOutput | lab6/libs/printfmt.c:213-215 | `%s` of a null pointer prints `(null)` |
| FormatLaws.PaddedOutput | lab6/libs/printfmt.c:148-157 | After no flag, `-` or `0`, a width pads a number on the left with blanks, `-` or `0` |
| FormatLaws.ErrorOutput | lab6/libs/printfmt.c:198-209 | `%e` of a code or its negation prints the message of the table, or `error` and the code where there is none |
| FormatLaws.InvalidParameter | lab6/libs/printfmt.c:337-342 | The code that vsnprintf returns negated stands for `invalid parameter` |
| Format.StandardOrder | lab6/libs/printfmt.c:141-190 | What flags, width, precision and length in the standard's order amount to, with digits, `*` or a bare `.`: the last `-` or `0` pads, a precision makes the width at least 0, each `*` takes an argument |
| Format.StarIsNumber | lab6/libs/printfmt.c:169-185 | For every conversion, `*` prints what the digits of its argument would; with a negative argument, what the directive without it and without an earlier precision would |
| Printf.PrecisionZero | lab6/libs/printfmt.c:154-176 | `%.0s` prints the whole text, `%.*s` with 0 prints nothing of it |
| Format.NumFieldWidth | lab6/libs/printfmt.c:39-54 | A number field is as long as the wider of width and digits, with all pads before the digits |
| Format.StrFieldWidth | lab6/libs/printfmt.c:212-232 | A string field is as long as the wider of the width and the text, cut to the precision if that is not negative; it is justified to either side |
| Format.ShownIsPrintable | lab6/libs/printfmt.c:222-227 | With `#` a character that is not printable comes out as `?`, and printable ones unchanged |
| Printf.SprintBuf.Put | lab6/libs/printfmt.c:299-305 | Every character is counted, the buffer holds the first ones that fit, and no byte outside is written |
| Printf.PrintNum | lab6/libs/printfmt.c:39-61 | The recursion prints the pads and then the digits, most significant first |
| Printf.PutNumber | lab6/libs/printfmt.c:234-270 | The number cases, through the label number, print the sign or `0x` and the field of the magnitude |
| Format.ReadableIff | lab6/libs/printfmt.c:221 | That is exactly the memory the loop can read: it tests the character after the last one it prints before it looks at the precision |
| Printf.PutKept | lab6/libs/printfmt.c:221-228 | The middle loop of `%s` prints just the characters that the precision lets through, of memory with a NUL or with one character more than the precision |
| Printf.PutLeftPads | lab6/libs/printfmt.c:216-220 | The first loop of `%s` prints the pads that the width leaves over strnlen(p, precision), unless the text goes to the left |
| Printf.PutString | lab6/libs/printfmt.c:212-232 | The three loops of `%s` print the field of the text |
| Printf.PutError | lab6/libs/printfmt.c:198-209 | `%e` prints the text of the code, or `error` and the code |
| Printf.ErrorTextIsFormatted | lab6/libs/printfmt.c:203-208 | That is what the two inner calls of printfmt format |
| Printf.ReadNumber | lab6/libs/printfmt.c:159-167 | The number loop takes the whole run of digits and its positional value |
| Printf.ReadMod | lab6/libs/printfmt.c:148-190 | Each case that goes back to reswitch changes the variables as its modifier says |
| Printf.ReadMods | lab6/libs/printfmt.c:141-190 | From the label reswitch on, the machine's variables end as the parsed modifiers say, and fmt stands past the next character |
| Printf.Rewind | lab6/libs/printfmt.c:278-282 | The backward loop stops just after the directive's own '%' |
| Printf.RenderUnknown | lab6/libs/printfmt.c:277-282 | Printing '%' and reading on from there comes to printing an unknown directive verbatim, the NUL inside a directive included |
| Printf.WithoutDirectives | lab6/libs/printfmt.c:277-282 | A format with no conversion in it is printed as it stands |
| Printf.PutLiterals | lab6/libs/printfmt.c:133-138 | The inner loop prints what stands before the next '%' or the NUL |
| Printf.Round | lab6/libs/printfmt.c:140-283 | A round from a '%' on ends further on, and what it prints together with the rendering of the rest is the rendering of all |
| Printf.VPrintFmt | lab6/libs/printfmt.c:125-285 | For every NUL-terminated format and all arguments, string arguments unterminated where a precision admits it, and as long as widths, precisions and the count stay in int, the machine terminates, reads nothing after the NUL and prints the two-phase rendering |
| Format.TerminatedIsReadable | lab6/libs/printfmt.c:212-232 | Terminated string arguments are always enough to read, in whatever order directives take them |
| Printf.VSNPrintf | lab6/libs/printfmt.c:337-348 | -E_INVAL for a null buffer or size 0; else, as long as widths, precisions and the count stay in int, the first min(count, size - 1) characters and a NUL, no other byte written, and the full count returned |
| Printf.BufferString | lab6/libs/printfmt.c:299-348 | The string found in the buffer afterwards is the output up to a NUL of its own, cut to size - 1 characters |
| Printf.SmallerIsPrefix | lab6/libs/printfmt.c:299-348 | Of two buffers given the same output, the smaller holds a string that is a prefix of the larger one's, and the same one if its size exceeds the count |
| RoundTrip.PrintParse | lab6/libs/printfmt.c:39-61 | For bases up to 16, strtol returns a printed number and consumes all of it exactly when the magnitude is at most LONG_MAX and there are no pads, or zeros, or blanks and no sign, or one '-' before 0 |
| RoundTrip.DirectiveReadsBack | lab6/libs/printfmt.c:234-270 | The same for the directives `%d`, `%u`, `%o` and `%x` with any modifiers and arguments, in base 10, 10, 8 and 16 |
| RoundTrip.FormatThenParse | lab6/libs/printfmt.c:337-348 | The same through memory: what vsnprintf leaves in a buffer with room for it, read by strtol |
| RoundTrip.PointerReadsBack | lab6/libs/printfmt.c:257-270 | A pointer printed by `%p` with any modifiers reads back in base 16 or 0 exactly when it is at most LONG_MAX and was not padded, or with zeros |
| RoundTrip.PaddedNegative | lab6/libs/printfmt.c:235-241 | `%3d` of -1 prints `-  1`, which reads as 0 |
| RoundTrip.LeastLong | lab6/libs/string.c:251-258 | The digits of LONG_MIN with their sign, as `%ld` prints them, overflow in strtol |
| RoundTrip.GreatestLong | lab6/libs/string.c:251-258 | LONG_MAX printed by `%ld` reads back |
| RoundTrip.KernelBase | lab6/kern/mm/memlayout.h:48 | `%p` of the kernel's base address does not read back: it overflows in strtol |
| RoundTrip.StopsAfterSign | lab6/libs/string.c:203-259 | A pad after a sign, or a second '-', ends the parse at once |
| RoundTrip.PadIsSign | lab6/libs/string.c:214-219 | One pad '-' is taken for the sign, which only 0 survives |
| Lists.LinkBetween | lab6/libs/list.h:141-146 | An entry linked between two neighbours of a ring makes the ring with it inserted there |
| Lists.UnlinkBetween | lab6/libs/list.h:154-158 | Joining the two neighbours of an entry makes the ring without it, the others in the same order |
| Lists.ListInit | lab6/libs/list.h:40-43 | The entry is a ring of its own |
| Lists.ListAddAfter | lab6/libs/list.h:79-82 | With any number of disjoint rings, the entry is inserted just after the given one and every other ring stays as it is |
| Lists.ListAddBefore | lab6/libs/list.h:66-69 | The same just before, which for the head is the end |
| Lists.ListDel | lab6/libs/list.h:91-94 | Exactly the entry leaves its ring, every other ring stays, and the entry's own pointers dangle as they were |
| Lists.ListDelInit | lab6/libs/list.h:102-106 | The entry leaves its ring and becomes one of its own |
| Lists.ListEmpty | lab6/libs/list.h:112-115 | True exactly when the ring has no entry but the one asked |
| Lists.ListNext | lab6/libs/list.h:121-124 | The next entry of the ring, the first after the last |
| Lists.ListPrev | lab6/libs/list.h:130-133 | The previous entry of the ring, the last before the first |
| Lists.Queue.Enqueue | lab6/libs/list.h:66-69 | Adding before the head appends; what has entered is what has left and then what waits |
| Lists.Queue.Dequeue | lab6/libs/list.h:91-94 | Deleting the entry after the head takes the one that entered first |
| ForkTree.LabelOutput | lab6/user/forktree.c:16 | The format `%s%c` yields the label with the branch appended |
| ForkTree.ForkChild | lab6/user/forktree.c:9-22 | It forks exactly below the depth, and the child's buffer of depth + 1 bytes, as snprintf leaves it, holds its whole label |
| ForkTree.StepIsFork | lab6/user/forktree.c:9-22 | The label that snprintf leaves is the one by which the process tree grows |
| ForkTree.RunInvariant | lab6/user/forktree.c:9-30 | In every interleaving, with failing forks too, labels are distinct binary strings within the depth and each has a parent that has passed its fork |
| ForkTree.LabelsExactlyOnce | lab6/user/forktree.c:9-30 | When all processes are done and no fork failed, each binary string up to the depth labels exactly one process |
| ForkTree.ProcessCount | lab6/user/forktree.c:9-30 | There are never more than 2^(depth + 1) - 1 processes, and in the end exactly that many if no fork failed |
| ForkTree.RunsEnd | lab6/user/forktree.c:9-30 | Every schedule ends within 2^(depth + 2) - 2 calls of forkchild |

## Left out

- The kernel, the user programs other than forktree, timers, time slices and process states, the vendored headers and the build tools.
- `atomic.h`, `readline.c`, CSR and ecall wrappers: inline assembly and console I/O.
- `strcpy`, `strncpy`, `strchr`, `strfind`, `memset`: single loops with no property beyond their bodies.
- SkewHeap.MergeEntries: a callback that changes memory, or reads the links of the heap itself. Order is claimed only where the callback's answers are a strict weak order.
- Stride.CallbackComputes: `le2proc`, which subtracts an offset, is a map from the links of processes to the processes; the conversion to int32_t keeps the low 32 bits, as the C implementation defines it.
- SkewClient.Pool: a key that changes while its entry is in the heap and then stays there through another operation; only an entry that is removed next may have a new key.
- Scheduler.RunQueue.PickNext: `stride_pick_next`, `stride_enqueue` and `stride_dequeue` have no bodies in the repository; the model does what their comments ask for. BIG_STRIDE, which the source leaves open, is a parameter below 2^31, and a priority of 0, by which C does not define the division, is excluded.
- Scheduler.RunQueue.Wakeup: a process whose stride would break the window; `wakeup_proc` lets it in, and the comparison then is no order if the window was one of 2^31 (`Stride.OrderIffWindow`).
- Rand.Generator.Rand: `next` is a field of an object instead of a static variable, and the bit mask is a remainder.
- Hash.Balanced: bits = 0 or bits > 32, for which C does not define the shift.
- Printf.VPrintFmt: `putch` is always `sprintputch`; its trace is what any other `putch` would be given. The switch and its labels are split into methods. A format or a string argument that lies in the buffer being written is not modelled, since both are values.
- Printf.ReadMods: a width, precision or count beyond the range of int; they are unbounded here.
- Printf.PutError: the inner calls of printfmt are replaced by the text they print (`ErrorTextIsFormatted`); the code -2^31, whose negation C does not define, counts as 2^31.
- Printf.VSNPrintf: pointers that wrap round at the top of memory.
- Format arguments: missing arguments and words taken for pointers to characters, which C does not define, read as 0 or a null pointer; a pointer read as a word is its address.
- StrTol.StrToL: what happens after a value accumulated leaves long, which C does not define; the outcome is `Overflow`, and nothing is said of the rest.
- Printf.PutNumber: `-(long long)num` for -2^63, which C does not define; the model prints the digits of 2^63 after the sign.
- StrTol.StrToL: a null `endptr`; the end is always returned.
- StringOps.StrCmp: characters range over all of Dafny's char, of which the bytes are the first 256.
- StringOps.MemMove: source and destination in different objects, where C does not define the comparison.
- Lists.ListInit: `list_add` is `list_add_after` under another name and has no member of its own.
- ForkTree.RunInvariant: the text printed by cprintf, process ids, yield and exit, and the scheduler's choice, which is arbitrary here; a failing fork is a choice as well.
