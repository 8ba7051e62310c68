# Verification of the answer checker, the master/worker protocol, the cron tools, the allocator, the synchroniser and the line index

This project models six programs of the repository in Dafny and proves what they are for.
`dafny verify dfyconfig.toml` checks everything.

**Answer checker** (`ssu_score/blank.c`). `compare_tree` decides whether a student's expression tree is
the model answer. `Trees` defines the equivalence `~` that the checker's rewrites generate (operands permuted under
`+ * | & || &&`, the two operands of `==` and `!=` swapped, two-operand relations mirrored) and proves that it is an
equivalence; `Meaning` shows that it is exactly the least congruence with those rewrites, says by name under which
operators operands may change places, and that it keeps the value of an expression under every interpretation that
respects the rewrites, of which `Integers` gives the one that C has. `Grading` is the search on values:
because the program relinks the answer while it searches, every call returns its verdict and the answer it leaves behind.
`Matching` and `Verdicts` prove what the search decides: always the "loose" match in which two operands of
the student may be found at the same operand of the answer; `~` itself exactly for students without repeated operands.
`LinkedTrees`, `GradingInPlace`, `TreeSurgery` and `Forest` are the pointer form: nodes with parent, child, prev and
next links, the walkers over them, `compare_tree` itself, `change_sibling` and `insert_node`, proved to do to the heap
what the functions on values say.

Line 62 of `blank.c` turns the answer node round even when it is not a relation. `Grading` therefore has two
programs, as written and guarded (only a relation with two operands is turned). `Grading` decides the guarded one;
`Unguarded` shows that the program as written is the guarded one, for every answer, exactly if no node of the student tree
is a relation, and that otherwise there is an answer on which it reads through a missing operand; a
model answer such as `x && (p < q)` already stops it when the student repeats it. The theorems of `Verdicts` hold of both programs
where they can be trusted, which `Verdicts.DecidesExactly` and `Verdicts.GradesExactly` make exact.
`Unguarded.TurnKeepsAnswerExactly` says when one unguarded turn is harmless, and `Unguarded.CalmRuns` gives a condition
on a pair of trees that is enough for the two programs to agree on it.
The checker also assumes that `==` and `!=` have two operands (`Trees.WellFormed`).

**Master/worker protocol** (`ssu_pthread/master-worker.c`). A step is one stretch of a thread between two points at
which the mutex is free; threads are ready, waiting, woken, leaving or done. All theorems are about any number of
masters and workers, any buffer size of at least one and any scheduler. Two switches describe the program as
written or repaired: `retest` (the full-buffer wait is re-tested in a loop instead of by the `if` of
line 49) and `spurious` (`pthread_cond_wait` may return without a broadcast). `Delivery` has the invariant,
exactly-once delivery and the stuck states, `Printed` says
which thread prints and wakes what, `Termination` has a measure and a bound on the length of runs, `Limits` the exact
conditions under which the buffer is never overrun and under which all threads are joined, `Totality` puts them together
into total correctness, and `SharedBuffer` has the critical sections on the shared variables themselves.

**Cron schedules** (`ssu_rsync/ssu_crond.c`, `ssu_rsync/ssu_crontab.c`). `TimeTable` is the one field compiler behind
the five copied blocks of `make_timetable`, `OptCheck` the validator, `Schedule` a syntax tree of
schedules with its printer, and `Validator` relates the two programs: what the validator accepts, and what the
compiler then does. A scope check that falls off its end is read as success. `CrontabFile` and
`CrontabList` are ADD and REMOVE: the file as text, and the list of commands it stands for.

**Allocator** (`ssu_alloc/alloc.c`). `Allocator` has first fit and freeing on values, with the
blocks the callers own beside the two tables; `AllocatorInPlace` the arrays and the scan with its single countdown. The
page has any number of units.

**Directory synchroniser** (`ssu_rsync/ssu_rsync.c`). `Sync` plans and applies on maps from names to entries, with
content copied by `fgets` and `fputs`; `Synced` gives the exact result of a run and exactly when it is the mirror the
program is meant to produce.

**Line index** (`LSP/2 File IO/ssu_read_4.c`). `LineIndex` builds the offset/length table in place from chunks and looks
lines up.

Where the code does not meet what it is for, the model follows the code, and a lemma gives the exact condition:
`Verdicts.SoundExactly`, `Verdicts.GradesExactly`, `Unguarded.RunsExactly`, `Limits.SafeExactly`, `Limits.JoinsExactly`,
`Validator.ProtectsExactly`, `Allocator.StrayDealloc`, `Synced.SyncsExactly`, `Synced.SettlesExactly`,
`CrontabList.RemoveDeletesExactly`, `CrontabList.NumberedExactly`, `CrontabList.ReadRightExactly`, `Synced.ContentsExactly`.

## Model

| member | source | states |
|---|---|---|
| Trees.EquivRefl | ssu_score/blank.c:45-131 | every tree is an acceptable form of itself |
| Trees.EquivSym | ssu_score/blank.c:45-131 | the rewrites can be undone: `~` is symmetric |
| Trees.EquivTrans | ssu_score/blank.c:45-131 | the rewrites can follow one another at every depth: `~` is transitive |
| Meaning.EquivIsCongruence | ssu_score/blank.c:45-131 | `~` contains permuting, swapping and mirroring and is closed under putting equivalent operands into a node |
| Meaning.EquivIsLeast | ssu_score/blank.c:45-131 | `~` relates nothing that those rewrites do not force: it lies in every congruence that contains them |
| Meaning.EquivKeepsValue | ssu_score/blank.c:45-131 | equivalent expressions have the same value whenever the listed operators commute, equality is symmetric and relations mirror |
| Meaning.FlipNameIs | ssu_score/blank.c:50-62 | turning a name round changes a leading angle bracket into the other one and nothing else |
| Meaning.ExchangedExactly | ssu_score/blank.c:45-131 | two different operands may change places exactly under sum, product, the bitwise and logical conjunctions and disjunctions, `==` and `!=`, and between `<` and `>` and between `<=` and `>=`, each named by its text |
| Meaning.NamesOfEquiv | ssu_score/blank.c:45-131 | equivalent trees have as many operands and the same name, but for the relations just named |
| Matching.EquivIsLoose | ssu_score/blank.c:100-127 | an equivalent answer also passes the operand-by-operand search |
| Matching.LooseThenEquiv | ssu_score/blank.c:100-127 | another form of the answer is matched by the same students |
| Matching.EquivThenLoose | ssu_score/blank.c:100-127 | another form of the student's tree matches the same answers |
| Matching.LooseIsEquiv | ssu_score/blank.c:100-167 | if no commutative node of the student repeats an operand, finding every operand somewhere is a one-to-one match |
| Matching.EquivSameSize | ssu_score/blank.c:45-131 | equivalent trees have equally many nodes |
| Matching.EquivMentions | ssu_score/blank.c:45-131 | only the names of relations can change: any other name in an equivalent tree was there before |
| Matching.Impostor | ssu_score/blank.c:100-127 | every student tree with a repeated operand is matched by an answer that is not equivalent: one with a new variable in place of the repeat |
| Grading.TurnRoundIsHarmless | ssu_score/blank.c:46-64 | the guarded turn never fails, leaves an equivalent answer and does not change what matches |
| Grading.CompareDecides | ssu_score/blank.c:34-173 | for every pair of trees the search ends without a missing operand, its verdict is the loose match, and the answer left behind is equivalent to the one it was given |
| Grading.CompareKidsDecides | ssu_score/blank.c:86-130 | the operands of two nodes of one name are compared correctly under every kind of operator |
| Grading.CompareBothOrders | ssu_score/blank.c:87-98 | under `==` and `!=` the verdict is that of either operand order, although the second attempt starts from what the first left behind |
| Grading.CompareFromDecides | ssu_score/blank.c:132-172 | comparing operand i and then the operands behind it decides whether all of them have their counterparts |
| Grading.SearchDecides | ssu_score/blank.c:110-126 | trying the answer's operands from the first on finds a counterpart exactly if there is one, whatever the failed attempts have rewritten |
| Unguarded.TurnKeepsAnswerExactly | ssu_score/blank.c:46-63 | as written, the turn reads a missing operand exactly for an answer with fewer than two, and leaves an equivalent answer exactly for a relation or for two operands whose order carries no meaning |
| Unguarded.CalmSame | ssu_score/blank.c:46-63 | whether a student relation may meet something else does not depend on the order of the answer's operands |
| Unguarded.CalmRuns | ssu_score/blank.c:34-173 | where a student relation only meets relations with two operands, the program as written returns the same verdict and answer as the guarded one |
| Unguarded.NoRelationRuns | ssu_score/blank.c:34-173 | for a student tree without relations the program as written is the guarded one |
| Unguarded.NeverAccepts | ssu_score/blank.c:34-173 | as written, an answer without relations stays one and never passes for a student tree with a relation |
| Unguarded.CrashAtOperand | ssu_score/blank.c:110-126 | as written, an operand with a relation is refused by every answer operand without one, until the search reaches the one that stops it |
| Unguarded.Stopper | ssu_score/blank.c:46-63 | as written, every student tree with a relation has an answer on which a missing operand is read |
| Unguarded.RunsExactly | ssu_score/blank.c:34-173 | as written, no answer stops the program exactly when no node of the student tree is a relation |
| Unguarded.AgreesExactly | ssu_score/blank.c:34-173 | the program as written agrees with the guarded one on every answer exactly when no node of the student tree is a relation |
| Unguarded.ModelAnswerStops | ssu_score/blank.c:46-63 | as written, a relation behind a plain operand of a commutative node stops the program on the model answer itself |
| Unguarded.CrashesOnReordering | ssu_score/blank.c:46-63 | as written, an `&&` with its operands in the other order can stop the program although the trees are equivalent |
| Verdicts.TrustedDecides | ssu_score/blank.c:34-173 | guarded, or without relations in the student tree, the search ends, decides the loose match and leaves an equivalent answer |
| Verdicts.DecidesExactly | ssu_score/blank.c:34-173 | either program does so for every answer exactly if it is guarded or the student tree has no relation |
| Verdicts.CorrectIsEquiv | ssu_score/blank.c:34-173 | without repeated operands the verdict of either program, where it can be trusted, is true exactly for equivalent trees |
| Verdicts.EquivIsCorrect | ssu_score/blank.c:34-173 | completeness: equivalent trees are accepted, by either program where it can be trusted |
| Verdicts.SoundExactly | ssu_score/blank.c:100-127 | a student tree is accepted for equivalent answers only, exactly when no commutative node in it has two equivalent operands |
| Verdicts.GradesExactly | ssu_score/blank.c:34-173 | every answer gets a verdict and the right one, exactly when the program can be trusted with the student tree and no operand is repeated |
| Verdicts.ExchangeVerdict | ssu_score/blank.c:45-131 | two different operands in the other order are accepted under exactly those operators: `a < b` for `b > a`, and `a - b` not for `b - a` |
| Verdicts.AcceptsRepeat | ssu_score/blank.c:100-127 | the smallest wrong grade: `x + x` is accepted for `x + y` |
| Verdicts.WellFormedSame | ssu_score/blank.c:87-98 | the rewrites keep two operands under `==` and `!=` |
| Verdicts.OrderIndependent | ssu_score/blank.c:45-131 | replacing either tree by an equivalent one, at any depth, never changes the verdict of either program where it can be trusted |
| Verdicts.LeftoverServes | ssu_score/blank.c:110-126 | the answer left behind by one comparison gives every later comparison the verdict the original would have given |
| Verdicts.CorrectKeepsValue | ssu_score/blank.c:34-173 | an accepted tree without repeats has the value of the model answer |
| Integers.IntegersRespect | ssu_score/blank.c:45-131 | integer expressions, with the comparisons, sum, product, difference, conjunction and disjunction of C, ignore what the rewrites change |
| Integers.CorrectKeepsInteger | ssu_score/blank.c:34-173 | an accepted tree without repeats has the integer value of the model answer, whatever the variables and the other operators stand for |
| LinkedTrees.TreeNode.constructor | ssu_score/blank.c:885-900 | a new node has its name and no links |
| LinkedTrees.GetSiblingCnt | ssu_score/blank.c:1048-1061 | the number of the other siblings, the same from every sibling |
| LinkedTrees.GetOperator | ssu_score/blank.c:947-957 | the node above, from every sibling, although only the first one links to it |
| LinkedTrees.GetLastChild | ssu_score/blank.c:1036-1045 | the last child, or the last sibling of a node without children |
| LinkedTrees.DescentTo | ssu_score/blank.c:960-972 | every node below a family is at the end of a descent from it, so get_root reaches the root from all of them |
| LinkedTrees.GetRoot | ssu_score/blank.c:960-972 | the first root, from every node of the forest |
| LinkedTrees.ChangeSibling | ssu_score/blank.c:866-882 | every link of the parent and its first two children after the change, and what stays |
| LinkedTrees.ChangeSiblingShape | ssu_score/blank.c:866-882 | the tree stays well linked, its first two operands have changed places with all that hangs below them, and later operands are cut off |
| LinkedTrees.Undisturbed | ssu_score/blank.c:866-882 | relinking a node among its siblings keeps the tree and the expression below it |
| GradingInPlace.TurnRoundInPlace | ssu_score/blank.c:46-64 | the heap holds the answer turned round as on values; the student's tree is untouched |
| GradingInPlace.CompareTree | ssu_score/blank.c:34-173 | compare_tree on linked nodes, for either program: verdict and answer in the heap are those of the search on values, links stay intact, no node of the student is written |
| GradingInPlace.CompareNode | ssu_score/blank.c:45-131 | the part about the two nodes and their operands, with the same guarantees |
| GradingInPlace.CompareTurned | ssu_score/blank.c:67-131 | names, missing children and operand counts are compared as on values |
| GradingInPlace.CompareKidsInPlace | ssu_score/blank.c:86-130 | the three ways of comparing operands give the verdict and the answer they give on values |
| GradingInPlace.CompareBothInPlace | ssu_score/blank.c:87-98 | the second attempt with the answer's operands changed over continues from the answer the first one left |
| GradingInPlace.SearchSiblings | ssu_score/blank.c:110-126 | the search along the sibling links stops at the same operand, with the same answer, as the search on values |
| GradingInPlace.CompareNext | ssu_score/blank.c:133-172 | the siblings behind the student's operand are compared after it, in any order or in step |
| GradingInPlace.CompareInStep | ssu_score/blank.c:169-170 | operands in step: the next one against the next, and false when the answer has none |
| GradingInPlace.SameCount | ssu_score/blank.c:135-138 | the two sibling counts agree exactly when the two nodes have equally many operands |
| GradingInPlace.Grade | ssu_score/ssu_score.c:726 | grading two roots, by either program where it can be trusted: a missing tree is wrong; otherwise the verdict is the loose match, which is `~` without repeats, the answer stays equivalent and well linked and the student's tree is unchanged |
| TreeSurgery.InsertedProper | ssu_score/blank.c:1021-1033 | after the insertion every old node and the new one occur once |
| TreeSurgery.InsertedKeepsLeaves | ssu_score/blank.c:1021-1033 | the insertion keeps the left-to-right order of the leaves |
| TreeSurgery.InsertNode | ssu_score/blank.c:1021-1033 | every link insert_node writes, and that a first sibling leaves the new node's prev alone |
| TreeSurgery.InsertNodeShape | ssu_score/blank.c:1021-1033 | the family is well linked afterwards exactly when the node taken over has an elder sibling or is a root |
| Forest.GrownKeepsLeaves | ssu_score/blank.c:1021-1033 | an insertion at any depth keeps the leaf order of the whole forest |
| Forest.JoinLinks | ssu_score/blank.c:1021-1033 | links intact around the changed family and inside it make an intact forest |
| Forest.InsertAnywhere | ssu_score/blank.c:1021-1033 | insert_node anywhere in the forest keeps the leaf order of the whole, and keeps all its links intact exactly when the node taken over has an elder sibling or is the first root |
| Delivery.NextKeeps | ssu_pthread/master-worker.c:34-118 | every step of every thread keeps the invariant on counters, buffer, output and waiting threads |
| Delivery.RunInv | ssu_pthread/master-worker.c:43-110 | in every reachable state the consumed items and the live slots are together exactly the items produced so far, each once, the counters agree with them and the fill level is within the buffer |
| Delivery.LiveSlots | ssu_pthread/master-worker.c:106-108 | no live slot holds -1 |
| Delivery.TakeTakes | ssu_pthread/master-worker.c:100-110 | a worker that finds items consumes the one on top of the buffer |
| Delivery.NeverBothWaiting | ssu_pthread/master-worker.c:49-97 | a master and a worker are never both in their wait sets |
| Printed.StepPrints | ssu_pthread/master-worker.c:65-107 | a step prints one line at most, behind the output so far, produced by the master or consumed by the worker that runs |
| Printed.PrintsItem | ssu_pthread/master-worker.c:60-110 | a master counts an item up exactly when it stores it at the fill level and prints it under its own number, a worker counts one down exactly when it takes it from the top and prints it under its own |
| Printed.RunnerMoves | ssu_pthread/master-worker.c:38-97 | exactly when the thread that runs goes to sleep, leaves or exits |
| Printed.StepWakes | ssu_pthread/master-worker.c:43-98 | masters are woken exactly by a worker that goes to sleep, workers by a master that goes to sleep or has left; nothing else changes the status of another thread |
| Printed.PrintedBy | ssu_pthread/master-worker.c:65-107 | every line in the output of any run was printed, at its place, in a step of the thread it names |
| Delivery.AllPassed | ssu_pthread/check.awk:18-34 | if everything is produced and consumed exactly once, the tally of check.awk is full |
| Delivery.PassedExactly | ssu_pthread/check.awk:18-34 | the tally is full exactly when every item was produced once and consumed once |
| Delivery.StuckIsSuccess | ssu_pthread/master-worker.c:43-97 | when no thread can run, every item has been produced and consumed once, check.awk's tally is full and all workers have exited; with one master or a buffer for all items, so have the masters |
| Termination.MasterProgress | ssu_pthread/master-worker.c:38-70 | every step of a master lowers the work left, or keeps it and lowers the number of threads still to fall asleep |
| Termination.WorkerProgress | ssu_pthread/master-worker.c:80-114 | the same for every step of a worker, including one woken in vain |
| Termination.NextProgress | ssu_pthread/master-worker.c:34-118 | without spurious wake-ups every step lowers one natural number |
| Termination.RunsEnd | ssu_pthread/master-worker.c:34-118 | no run, under any scheduler, is longer than a bound written out in the item count and the numbers of threads |
| Limits.SafeRuns | ssu_pthread/master-worker.c:49-65 | in the safe configurations no reachable state has stored outside the buffer |
| Limits.OverrunBySpuriousWakeup | ssu_pthread/master-worker.c:49-65 | as written, one spurious wake-up of a sleeping master overruns the buffer whenever there are more items than slots |
| Limits.OverrunBySecondMaster | ssu_pthread/master-worker.c:49-65 | as written, two masters overrun the buffer when there are more than twice as many items as slots |
| Limits.SafeExactly | ssu_pthread/master-worker.c:49-65 | the buffer is never overrun exactly when the wait is re-tested, or all items fit, or no wake-up is spurious and there is one master or at most two buffers full of items |
| Limits.MasterLeftWaiting | ssu_pthread/master-worker.c:49-57 | with two masters and more items than slots, a master can be left asleep after everything is delivered and everyone else has exited |
| Limits.JoinsExactly | ssu_pthread/master-worker.c:34-118 | every stuck state has all threads joined exactly with one master or a buffer for all items |
| Totality.EndsDelivered | ssu_pthread/master-worker.c:34-118 | however a safe run ends, everything has been delivered once and check.awk's tally is full |
| Totality.Finishes | ssu_pthread/master-worker.c:34-118 | without spurious wake-ups every safe run can be finished from wherever it is, within the bound on its length, and ends with everything delivered |
| SharedBuffer.Monitor.constructor | ssu_pthread/master-worker.c:126-159 | the shared variables and threads as main sets them up |
| SharedBuffer.Monitor.RunMaster | ssu_pthread/master-worker.c:34-72 | the critical section on the shared variables does to them exactly what the step says |
| SharedBuffer.Monitor.RunWorker | ssu_pthread/master-worker.c:76-118 | the same for the worker |
| SharedBuffer.Monitor.RunSchedule | ssu_pthread/master-worker.c:34-118 | every schedule is a run; a safe configuration stays inside the buffer, and when nothing can run everything has been delivered |
| TimeTable.Store | ssu_rsync/ssu_crond.c:180-192 | a loop over a range sets exactly the slots it hits and clears none |
| TimeTable.StoreItem | ssu_rsync/ssu_crond.c:156-194 | an item sets exactly its slots, by its star, number, range and period, and clears none |
| TimeTable.MakeField | ssu_rsync/ssu_crond.c:143-194 | slot k of the table is set exactly when some comma item hits k; what the table held before does not matter |
| TimeTable.MakeTimetable | ssu_rsync/ssu_crond.c:129-412 | the same for all five tables and their fields |
| TimeTable.ItemsAsSet | ssu_rsync/ssu_crond.c:143-194 | permuting or repeating comma items changes nothing, adding items only adds slots |
| CText.TokensOfJoin | ssu_rsync/ssu_crond.c:146-153 | splitting at a delimiter gives back the pieces that were joined with it |
| CText.AtoiIsValue | ssu_rsync/ssu_crond.c:167-172 | atoi of a numeral is the number it denotes |
| CText.TokenThenRest | ssu_rsync/ssu_crond.c:146-153 | text put in front with a delimiter is one token more |
| CText.AtoiReads | ssu_rsync/ssu_crond.c:167-172 | atoi reads the digits at the front of a text, and one sign before them |
| CText.AtoiSkips | ssu_rsync/ssu_crond.c:167-172 | it skips white space, and anything else in front makes it 0 |
| OptCheck.Check | ssu_rsync/ssu_crontab.c:279-321 | opt_check accepts exactly when all five fields are accepted; otherwise its result is -1 if some field starts with a number out of range, or else what belongs to the first offending character: -2 if it is a wrong symbol, -1 if the number behind it is out of range |
| OptCheck.ScopeExactly | ssu_rsync/ssu_crontab.c:192-276 | the scope checks refuse exactly a digit where no number of the field, written without leading zero, starts: minutes 0-59, hours 0-23, days 1-31, months 1-12, weekdays 0-6, by at most two digits |
| OptCheck.CodeExactly | ssu_rsync/ssu_crontab.c:288-318 | which characters lead to -2 and which to -1 |
| OptCheck.FieldExactly | ssu_rsync/ssu_crontab.c:279-321 | any text is accepted as a field exactly when it has only digits, stars, and slashes, commas and dashes directly in front of a digit, and the numbers at its start and behind those are in range |
| Schedule.ItemParts | ssu_rsync/ssu_crond.c:156-191 | splitting a printed item at slash and dash gives back its numerals |
| Schedule.PrintedEffect | ssu_rsync/ssu_crond.c:156-193 | each kind of printed item reaches its own loop with its own bounds, start and period; a period behind a single number reads a missing range end |
| Schedule.ItemCompiles | ssu_rsync/ssu_crond.c:156-193 | a printed item compiles exactly when it has a meaning, and then sets exactly the slots it denotes |
| Schedule.StarSets | ssu_rsync/ssu_crond.c:161-165 | what a star sets in each of the five tables, in numbers |
| Schedule.ItemFails | ssu_rsync/ssu_crond.c:156-193 | how a printed item goes wrong: a null pointer exactly for a period behind a single number, a division exactly for a period of zero in use, a store outside exactly for a slot behind the table |
| Schedule.TypedPlain | ssu_rsync/ssu_crond.c:156-175 | what any item without a slash does, printed or not: pieces behind the second dash are ignored and no number counts as 0 |
| Schedule.TypedPeriod | ssu_rsync/ssu_crond.c:177-193 | what any item with slashes does: pieces behind the second are ignored, and a first piece that is neither a star nor a range reads a missing range end |
| Schedule.RoundTrip | ssu_rsync/ssu_crond.c:143-194 | a printed field compiles exactly when all its items have a meaning, and then slot k is set exactly when some item of the schedule denotes k |
| Validator.ScopeIsRange | ssu_rsync/ssu_crontab.c:192-276 | each scope check means that the number of the first two digits is in the field's range, without a leading zero |
| Validator.AcceptsExactly | ssu_rsync/ssu_crontab.c:279-321 | a printed field is accepted exactly when every numeral passes its scope check and only the first item has a star |
| Validator.MeaningfulExactly | ssu_rsync/ssu_crond.c:156-193 | an item has a meaning exactly when no single number has a period, no period in use is zero, and its number, range end or last stepped slot is inside the table |
| Validator.ProtectsExactly | ssu_rsync/ssu_crontab.c:279-321 | an accepted field, with numerals of any length, compiles without leaving its table or dividing by zero exactly when its periods are good and its slots fit; for numerals of one or two digits acceptance makes them fit |
| Validator.DayAndMonthPeriods | ssu_rsync/ssu_crontab.c:232-264 | for days and months a period of zero is never accepted, so an accepted field compiles exactly when no single number has a period and the slots fit |
| Validator.LongNumeralEscapes | ssu_rsync/ssu_crontab.c:192-208 | minute 100 is accepted and lies outside the table |
| Validator.SinglePeriodEscapes | ssu_rsync/ssu_crontab.c:287-320 | a single number with a period is accepted in every field, and the compiler then reads a missing range end |
| Validator.LeadingSeparators | ssu_rsync/ssu_crontab.c:287-320 | a number behind a leading dash or slash is accepted in every field: the dash makes the compiler store outside its table, unless the number is 0, and the slash makes it set slot 0 |
| Validator.CheckThenCompile | ssu_rsync/ssu_crontab.c:279-321 | a schedule that opt_check accepts, and whose periods are good and slots fit, makes make_timetable set in all five tables exactly the slots its own fields denote; a rejected one changes nothing |
| CrontabFile.Crontab.constructor | ssu_rsync/ssu_crontab.c:36-44 | the counter starts as the number of lines in the file |
| CrontabFile.ReadLinesIs | ssu_rsync/ssu_crontab.c:36-44 | the lines read are the text: none is empty, all but the last end at their only line break, and an unfinished last one is read too |
| CrontabFile.AddedLineIs | ssu_rsync/ssu_crontab.c:338-349 | the line ADD writes, character by character: the counter, a dot, a space, five periods each with a space, the command and a line break |
| CrontabFile.ShownReads | ssu_rsync/ssu_crontab.c:340-341 | the printed counter reads back as the counter |
| CrontabFile.Crontab.AddCommand | ssu_rsync/ssu_crontab.c:334-353 | one line with the counter and the command is appended, and the counter goes up |
| CrontabFile.Crontab.CopyLines | ssu_rsync/ssu_crontab.c:369-394 | the reading loop keeps the earlier lines, drops the one with the number, and gives the later ones a new first character |
| CrontabFile.CopiesAt | ssu_rsync/ssu_crontab.c:369-394 | where each line is kept and what of it, for any lines: up to its first terminator, with the new first character behind the removed line |
| CrontabFile.MarkIs | ssu_rsync/ssu_crontab.c:385-390 | the new first character of every line: the characters from the slash on, one by one, up to line 208, and the terminator for line 209 |
| CrontabFile.RefusesOthers | ssu_rsync/ssu_crontab.c:324-331 | number_check refuses an argument that does not start with a digit |
| CrontabFile.GuardIsLoose | ssu_rsync/ssu_crontab.c:324-331 | it reads the digits in front of any other text, and lets through two numbers that no line has |
| CrontabFile.Crontab.RemoveCommand | ssu_rsync/ssu_crontab.c:356-409 | the file is rewritten from the copies of its lines, as many as the old counter says, and the counter goes down, for every number |
| CrontabList.StoredIs | ssu_rsync/ssu_crontab.c:338-349 | the commands read back from a file are those of its entries |
| CrontabList.AddAppends | ssu_rsync/ssu_crontab.c:334-353 | ADD appends the command to the list of stored ones |
| CrontabList.RemoveReads | ssu_rsync/ssu_crontab.c:370-406 | what is read back after REMOVE, for every number and every length of file: a new first character that is a terminator loses the line, one that is a line break splits it |
| CrontabList.RemoveGives | ssu_rsync/ssu_crontab.c:370-406 | where no line is destroyed, the rewritten file is that of the remaining entries with their new first characters, the first of them if the counter says less |
| CrontabList.RemoveDeletesExactly | ssu_rsync/ssu_crontab.c:356-409 | REMOVE deletes the command from the list and the counter stays its length, exactly when a line has that number and no later line is destroyed by its new first character |
| CrontabList.SmallFiles | ssu_rsync/ssu_crontab.c:385-390 | up to 209 lines nothing is destroyed; removing a line before the last of 210 destroys that one |
| CrontabList.RunIsList | ssu_rsync/ssu_crontab.c:334-409 | under any sequence of ADD and valid REMOVE the stored commands are those of a list with append and delete and the counter is its length; while removals meet at most ten lines, every printed number is the line's position |
| CrontabList.NumberedExactly | ssu_rsync/ssu_crontab.c:385-390 | removing a line keeps printed numbers equal to positions exactly when it is the last one or there are at most ten lines |
| CrontabList.FieldsOfJoin | ssu_rsync/ssu_crond.c:88-109 | splitting a text at its first spaces gives back the fields that were joined with them |
| CrontabList.DaemonReadsExactly | ssu_rsync/ssu_crond.c:88-109 | the daemon, which skips three characters and splits at the first five spaces, gets the five periods and the command of ADD exactly when the printed number has one character |
| CrontabList.ReadRightExactly | ssu_rsync/ssu_crond.c:88-109 | a command is read right exactly if it was added to a file of less than ten lines, and renumbering never changes that |
| CrontabList.StrayRemove | ssu_rsync/ssu_crontab.c:356-409 | removing a number that no line has leaves the file alone but lowers the counter; doing it twice loses the last command |
| Allocator.FirstFit | ssu_alloc/alloc.c:41-56 | the lowest free run that is long enough, and none exactly when there is none |
| Allocator.AllocStart | ssu_alloc/alloc.c:34-59 | a request for some bytes gets the lowest unit from which an eighth of them are free, and none exactly when the bytes are no multiple of 8 or there is no such place; a request for none gets the unit behind the first marked one |
| Allocator.AllocGives | ssu_alloc/alloc.c:49-55 | a request gets units that were free, an eighth of its bytes; they are marked, their size is stored at the first, and nothing else changes |
| Allocator.InTableExactly | ssu_alloc/alloc.c:49-53 | the size is stored behind the table exactly for a request for no bytes when the last unit is the only marked one |
| Allocator.AllocKeeps | ssu_alloc/alloc.c:34-59 | a request stays inside the tables and keeps live blocks apart, inside the page, exactly marked and with the right size at their starts, for every size but 0; for 0 exactly when it hits no place behind the page and no start of a live block |
| Allocator.DeallocKeeps | ssu_alloc/alloc.c:61-68 | freeing a live block stays inside the page, clears exactly its units, drops it from the live blocks, and leaves the other units and all sizes as they are |
| Allocator.StrayDealloc | ssu_alloc/alloc.c:61-68 | freeing a place where no live block starts is harmless exactly when the stale size there reaches no live block |
| Allocator.Conservation | ssu_alloc/alloc.c:34-68 | the number of marked units is the sum of the live sizes |
| Allocator.DoKeeps | ssu_alloc/alloc.c:34-68 | on a valid page every request for some bytes and every free of a live block stays inside the tables and keeps the page valid |
| Allocator.RunsValid | ssu_alloc/alloc.c:8-68 | after any sequence of requests and frees of live blocks, from a fresh page, the page is valid and its marked units are the live ones |
| Allocator.RunsGoOn | ssu_alloc/alloc.c:34-68 | no such sequence gets stuck: whatever the callers may do next stays inside the tables |
| Allocator.AllocThenDealloc | ssu_alloc/alloc.c:34-68 | freeing a block right after it was handed out restores the bitmap |
| Allocator.FreeAll | ssu_alloc/alloc.c:61-68 | freeing all live blocks, in any order, leaves a valid page without blocks |
| Allocator.NothingLeaks | ssu_alloc/alloc.c:34-68 | with no block live the whole page can be had in one piece, although sizes are never cleared |
| Allocator.FreeInAnyOrder | ssu_alloc/alloc.c:34-68 | freeing all live blocks of any valid page, in any order, lets the whole page be had in one piece |
| AllocatorInPlace.Arena.constructor | ssu_alloc/alloc.c:8-22 | both tables zero and no block handed out |
| AllocatorInPlace.Arena.Scan | ssu_alloc/alloc.c:36-58 | the scan with one countdown finds the first fit, for every size; counting to the number of bytes it leaves the bitmap exactly when a request that is not refused at once has no place |
| AllocatorInPlace.Arena.Alloc | ssu_alloc/alloc.c:34-59 | alloc updates the tables as on values and returns the pointer to the first fit or NULL; its store of the size leaves the table exactly when `Allocator.InTable` fails |
| AllocatorInPlace.Arena.Dealloc | ssu_alloc/alloc.c:61-68 | dealloc of any pointer into the page clears the units the size table names, and keeps the page valid for live blocks |
| CText.BeforeNulIs | ssu_rsync/ssu_rsync.c:336-337 | what strcpy and fputs take of a text ends in front of its first terminator |
| Sync.CopiedExactly | ssu_rsync/ssu_rsync.c:336-337 | copying by fgets and fputs is exact without NUL characters and loses characters with any |
| Sync.LineCopied | ssu_rsync/ssu_rsync.c:336-337 | what copying keeps of each line, or of each 1023 characters of a longer one: what stands before its first NUL |
| Sync.Syncer.Compare | ssu_rsync/ssu_rsync.c:210-258 | one source file against the names of dst: it is appended to the removals if it differs and to the copies if it differs or is missing; `Synced.PlanListed` says when that is |
| Sync.Syncer.RsyncDir | ssu_rsync/ssu_rsync.c:175-265 | the two lists are made of the source files that differ from a file of dst, and of those that dst lacks or has differently, in directory order |
| Sync.Syncer.Rsync | ssu_rsync/ssu_rsync.c:268-351 | dst is what removing, adding and dropping swap files make of it, up to the point where the run exits if it does |
| Synced.RmAllDone | ssu_rsync/ssu_rsync.c:280-312 | the first loop gets through exactly when no directory has the name of a swap file |
| Synced.BackupsKept | ssu_rsync/ssu_rsync.c:280-312 | after the removals a removed file is there under its name with `.swp`, with its time and what the copy loop keeps of its content, unless that name or its own is used by another removed file |
| Synced.PlanListed | ssu_rsync/ssu_rsync.c:236-256 | a source file is listed for removal exactly if dst has it as a file of another size or time, and for copying exactly if it is listed for removal or dst has no file of its name |
| Synced.AddAllIs | ssu_rsync/ssu_rsync.c:315-349 | the second loop gets through exactly when no directory has the name of a file to copy, and then only those files change |
| Synced.DropAllIs | ssu_rsync/ssu_rsync.c:385-398 | remove_swp removes every swap file of the run and nothing else |
| Synced.BlockedExactly | ssu_rsync/ssu_rsync.c:280-349 | the run exits exactly when a directory is in the way of a copy or a swap file |
| Synced.ApplyIs | ssu_rsync/ssu_rsync.c:268-398 | the exact destination after every run that gets through |
| Synced.ExitKeeps | ssu_rsync/ssu_rsync.c:280-349 | at whatever point a run exits, every file of dst is as it was, or is the copy of the source's, or is backed up under its name with `.swp` |
| Synced.SyncsExactly | ssu_rsync/ssu_rsync.c:191-398 | the run ends in the mirror exactly when no directory has a source file's name, no swap name is in use and nothing to copy holds a NUL |
| Synced.MirrorMeets | ssu_rsync/ssu_rsync.c:191-349 | in the mirror every source file is there with its size and its time; it is the source's unless dst had one of that size and time, and nothing else has changed |
| Synced.SettlesExactly | ssu_rsync/ssu_rsync.c:191-398 | planning again after a run lists nothing exactly when nothing copied held a NUL and no swap name is that of a source file |
| Synced.Idempotent | ssu_rsync/ssu_rsync.c:191-398 | a clean run leaves nothing to do for the next one |
| Synced.ContentsExactly | ssu_rsync/ssu_rsync.c:240-249 | the mirror has the content of every source file exactly when files of the same size and time already had the same content |
| Synced.ContentExactly | ssu_rsync/ssu_rsync.c:240-398 | after any run that gets through, a source file's content is there exactly when its name is no swap name of the run and it was either copied without a NUL or already the same |
| Synced.SameSizeSameTime | ssu_rsync/ssu_rsync.c:240-241 | the witness: two files of the same size and time but different content are left different |
| Synced.Synchronise | ssu_rsync/ssu_rsync.c:23-33 | planning and applying get through exactly for directories that are not blocked, then leave the exact result, which is the mirror exactly for clean ones; otherwise dst is left where the run stopped |
| LineIndex.LinesAreLines | LSP/2 File IO/ssu_read_4.c:48-56 | the lines of a file are consecutive, all but the last end at their only newline, and together they are the file |
| LineIndex.LinesUnique | LSP/2 File IO/ssu_read_4.c:48-56 | nothing else has those properties |
| LineIndex.LinesGrow | LSP/2 File IO/ssu_read_4.c:49-54 | one more character lengthens the last line, and a newline starts another |
| LineIndex.LineInFile | LSP/2 File IO/ssu_read_4.c:70-72 | the slice at a line's offset with its length is that line |
| LineIndex.IndexesGrow | LSP/2 File IO/ssu_read_4.c:50-54 | counting one more character keeps the table right and inside its bounds |
| LineIndex.LineTable.Build | LSP/2 File IO/ssu_read_4.c:46-56 | however `read` cuts the file into chunks, the table is that of the file for at most 127 newlines, and the loop leaves the table exactly for more |
| LineIndex.LineTable.LookUp | LSP/2 File IO/ssu_read_4.c:67-76 | looking up n returns the n-th line, nothing behind the last line, ends the program below 1 and leaves the table above 128 |

## Left out

- Building trees in `blank.c`: `make_tokens`, `reset_tokens`, `is_typeStatement`, `make_tree` and the precedence search have no specification beyond their own code; `get_high_precedence_node` falls off its end.
- `remove_extraspace` and `rtrim` work on uninitialised or dangling buffers.
- A root with siblings: `get_operator` yields no node there and line 147 of `blank.c` reads through it; the model grades single roots.
- Grading.TurnRoundIsHarmless: about the guarded turn; for the one as written `Unguarded.TurnKeepsAnswerExactly` has the exact condition.
- Grading.CompareDecides: about the guarded program and students with two operands under `==` and `!=`; the program as written does the same exactly for students without relations, by `Verdicts.DecidesExactly`.
- Grading.CompareKidsDecides: about the guarded program, as `Grading.CompareDecides`.
- Grading.CompareBothOrders: about the guarded program, as `Grading.CompareDecides`.
- Grading.CompareFromDecides: about the guarded program, as `Grading.CompareDecides`.
- Grading.SearchDecides: about the guarded program, as `Grading.CompareDecides`.
- Unguarded.CalmRuns: enough for one pair of trees, but not necessary; what is exact is the condition over all answers, `Unguarded.AgreesExactly`.
- GradingInPlace.CompareTree: requires that the search on values does not run into a missing operand, because there the program has no defined behaviour; `Verdicts.DecidesExactly` says when that is so for every answer.
- GradingInPlace.Grade: requires roots without siblings, because `get_operator` yields no node for others, and two operands under `==` and `!=`, because `change_sibling` cuts off the rest.
- The memory of nodes: operands cut off by `change_sibling` are unreachable in the model, `free_node` is not modelled, and node names are not bounded by their buffers.
- Scheduling and memory of real threads: a step of the protocol is one critical section, the last broadcast of a master being a step of its own, and the buffer is read and written under the mutex only.
- SharedBuffer.Monitor.RunMaster: the program's infinite loop is cut into stretches at which the mutex is free; which thread runs next is the schedule's choice.
- Threads, `system`, log files and timing in `ssu_crond.c`, and its lookup `month[tm->tm_mon]`, which is off by one; only the tables are described.
- TimeTable.MakeField: requires that the field compiles, because otherwise the program stores outside its table, divides by zero or reads a null pointer; `Schedule.RoundTrip` says when that is so.
- The lengths of fixed C buffers and the widths of integers, except where a table or a heap bound is the property.
- Validator.CheckThenCompile: requires of an accepted schedule that its periods are good and its slots fit, because otherwise the compiler has no defined behaviour; `Validator.ProtectsExactly` says that this is exactly when it compiles.
- CrontabList.RunIsList: says nothing of printed numbers once a removal has met more than ten lines; `CrontabList.NumberedExactly` says what one removal does.
- Synced.ExitKeeps: says nothing of a file of dst whose name is the swap name of another file of the run, or whose own swap name is that of a source file; such a file can be overwritten.
- The log lines written by ADD and REMOVE, and the crontab prompt.
- AllocatorInPlace.Arena.Scan: where the loop leaves the bitmap the model stops with NULL; what the program reads there is not modelled.
- AllocatorInPlace.Arena.Alloc: what a store behind the size table overwrites is not modelled.
- The pages behind the allocator (`mmap`, `munmap`); a pointer is a base address plus an offset.
- Signal rollback and single-file mode of `ssu_rsync.c`, permissions, failing system calls and clocks; a directory is a map from names to file contents with times, and source and destination are different directories.
- LineIndex.LineTable.Build: what a store behind the 128 entries overwrites is not modelled.
- LineIndex.LineTable.LookUp: leaves out the 1024 bytes of the buffer the line is read into.
- The rest of `ssu_score.c` (compilation, process control, options, totals, table sorts), `compare_resultfile`, the shells, `GCD`, the other system-call examples and the MATLAB scripts, none of which has a property as hard as those above.
